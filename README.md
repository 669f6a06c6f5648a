# Mad Libs terminal game — verified model

A Dafny model of the terminal Mad Libs game in two editions: `src/app.js` (current) and `assets/src/app.js` (older). In both, the player:

- picks a theme from a numbered menu, answering with a number that `parseInt` reads;
- is re-prompted with the same menu until an answer is accepted;
- gets a randomly drawn story of that theme;
- answers one prompt per placeholder;
- sees the story's segments joined with spaces, with every `___` replaced left to right by the next answer.

The current edition also wraps the completed story greedily at 75 columns (`wrapText`). The older edition prints it as it is.

Modules:

- `JsText`: the JavaScript string built-ins the game relies on. `split` and `join` on a one-character separator, and `trim` with the ECMAScript whitespace set.
- `JsNumber`: `parseInt(s)` without a radix, for decimal numerals. It skips leading whitespace, reads one optional sign, then the longest run of digits; NaN is `None`.
- `WordWrap`: `wrapText`.
  - A specification groups the words into the lines the greedy loop puts them on.
  - `WrapText` is the loop itself, proved equal to that specification.
  - Lemmas state what the output promises.
- `Blanks`: the `replace(/___/g, () => inputs.shift())` substitution.
- `Console`: the readline interface.
  - A `Terminal` object holds the lines the user will type and logs every prompt and answer.
  - `rl.question` is its `Question` method.
- `ThemeMenu`: the theme-number check and the re-prompting menu of `displayThemes`.
- `Game`: the catalog, `selectRandomStory`, `promptForInputs`/`askForInput`, `displayCompletedStory` and one whole session of each edition.

How the game's environment is modelled:

- The story catalog is a parameter.
- `Math.random()` is a parameter in `[0, 1)`.
- Typed input is the list of lines the terminal holds.

A session ends in one of three ways:

- with the completed story;
- waiting for input that never comes, when the lines run out;
- with the `TypeError` that reading a story of an empty theme raises.

What the code does, and so what the model does:

- Every answer to a placeholder is kept exactly as typed, including empty and whitespace-only ones. Nothing is asked again.
- The completed story is printed without a title box or colour.
- A word longer than the width is never split, but, like every output line, it is trimmed. `LongWordsWhole` states exactly that.
- The empty text wraps to the empty text for every width `>= 0`. For a negative width it yields `"\n"`. `WrapEmpty` states both cases. The game itself always uses 75.
- The number of blanks and the number of placeholders are never compared. Blanks beyond the inputs receive the text `undefined`, and extra inputs are ignored.
- When the first word is longer than the width, the output begins with an empty line. `LeadingNewline` proves this.

## Model

| member | source | states |
|---|---|---|
| JsText.IsWhitespace | src/app.js:33 | definition: the characters `trim` removes, the ECMAScript WhiteSpace and LineTerminator code points |
| JsText.TrimStart | src/app.js:33 | the result is a suffix of the text, everything removed is whitespace, and the result does not start with whitespace |
| JsText.TrimEnd | src/app.js:33 | the result is a prefix of the text, everything removed is whitespace, and the result does not end with whitespace |
| JsText.Trim | src/app.js:40 | `trim()` never lengthens, and its result neither starts nor ends with whitespace |
| JsText.TrimMiddle | src/app.js:33-40 | the result of `trim()` is a slice of the text with only whitespace before it and only whitespace after it (`IsMiddle`); with `Trim`'s own postcondition, exactly the leading and trailing whitespace is removed |
| JsText.Split | src/app.js:27 | `split(' ')` gives at least one part, and no part holds the separator |
| JsText.Join | src/app.js:93 | definition: `parts.join(sep)`, the parts with one separator between neighbours |
| JsText.Terminated | src/app.js:33 | definition: every part followed by the separator, as the loop's `+= line + '\n'` builds it |
| JsText.SplitNoSeparator | src/app.js:27 | a text without the separator splits into itself alone |
| JsText.SplitAppend | src/app.js:27 | splitting at one separator splits both sides independently |
| JsText.JoinSplit | src/app.js:27 | joining the parts of `split` with the same separator gives back the text |
| JsText.SplitJoin | src/app.js:93 | splitting a join of separator-free parts gives back the parts |
| JsText.JoinTerminated | src/app.js:33-40 | the lines appended each with `'\n'`, then the last line, make the `'\n'`-join of all the lines |
| JsText.TrimAppendSpace | src/app.js:34 | the trailing space a word gets on the running line does not survive `trim` |
| JsText.TrimDropsTrailing | src/app.js:33 | a text ending in whitespace is shortened by `trim` |
| JsText.SplitPartsWithin | src/app.js:27 | every character of every part comes from the text split |
| JsText.TrimWithin | src/app.js:33 | `trim` only removes characters |
| JsNumber.ParseInt | src/app.js:53 | definition: `parseInt(answer)`, leading whitespace skipped, then `ParseSigned`; NaN is `None` |
| JsNumber.ParseSigned | src/app.js:53 | definition: one optional `-` (negating) or `+`, then `ParseDigits` |
| JsNumber.ParseDigits | src/app.js:53 | definition: the value of the longest run of leading digits, NaN when there is none |
| JsNumber.LeadingDigits | src/app.js:53 | the digits `parseInt` reads are the longest all-digit prefix of what follows the sign |
| JsNumber.Decimal | src/app.js:50 | the numeral the menu shows is a non-empty run of decimal digits |
| JsNumber.ValueOfDecimal | src/app.js:50 | reading back the digits of a shown number gives that number |
| JsNumber.LeadingDigitsOf | src/app.js:53 | digits followed by a non-digit are read exactly, and nothing after them |
| JsNumber.ParseAfterTrim | src/app.js:53 | `parseInt` reads the sign and digits of what is left once the leading whitespace is removed |
| JsNumber.ParsePadded | assets/src/app.js:34 | leading whitespace does not change what `parseInt` returns |
| JsNumber.ParseDecimal | src/app.js:53 | digits of a number followed by a non-digit read back as that number |
| JsNumber.ParseNegative | assets/src/app.js:34 | a minus sign before a positive number's digits gives the negated number |
| JsNumber.ParseNonNegative | src/app.js:53 | the digits of a number, followed by anything that is not a digit, read back as the number |
| JsNumber.ParseBareNumeral | assets/src/app.js:34 | any integer written in decimal, followed by a non-digit, reads back as itself |
| JsNumber.ParseNumeral | src/app.js:53 | any integer written in decimal reads back as itself, whatever whitespace precedes it and whatever non-digit follows |
| JsNumber.NoDigitsIsNaN | assets/src/app.js:34 | an answer without any decimal digit is NaN |
| ThemeMenu.ThemeIndex | src/app.js:53-54 | accepted exactly when `parseInt` gives `n` with `1 <= n <= count`, selecting `n - 1`; rejected for NaN, below 1 and above the count |
| ThemeMenu.ShownNumberSelects | src/app.js:50-56 | typing the number shown in front of a theme (with any leading whitespace and trailing non-digits) selects that theme |
| ThemeMenu.OutOfRangeRejected | src/app.js:53-58 | a number below 1 or above the number of themes is rejected |
| ThemeMenu.NonNumericRejected | assets/src/app.js:34-39 | an answer without digits is rejected |
| ThemeMenu.OneSelectsFirst | assets/src/app.js:34-37 | "1" selects the first theme of any non-empty menu |
| ThemeMenu.ZeroRejected | src/app.js:53-58 | "0" is rejected whatever the number of themes |
| ThemeMenu.MinusOneRejected | assets/src/app.js:34-39 | "-1" is rejected whatever the number of themes |
| ThemeMenu.FirstAccepted | src/app.js:52-60 | the answer the menu stops on lies among the typed answers and selects an existing theme |
| ThemeMenu.FirstAcceptedMeans | src/app.js:52-60 | the menu stops on an accepted answer, and all earlier answers were rejected; when it never stops, every answer was rejected |
| ThemeMenu.FirstAcceptedIs | assets/src/app.js:33-41 | conversely, an accepted answer preceded only by rejected ones is where the menu stops, with that answer's theme |
| ThemeMenu.FirstAcceptedNone | src/app.js:57-59 | if every answer is rejected, no theme is ever selected |
| ThemeMenu.RejectsAll | assets/src/app.js:38-40 | the loop invariant "every answer so far was rejected" holds exactly when each of them is rejected |
| ThemeMenu.MenuDialogue | src/app.js:52 | definition: the menu prompt asked once per typed answer, each followed by that answer |
| ThemeMenu.MenuDialogueExtend | src/app.js:52 | one more round adds the menu prompt and that answer to the exchange |
| ThemeMenu.MenuRound | src/app.js:52-54 | one round shows the menu prompt, consumes one line if there is one, and returns its verdict |
| ThemeMenu.DisplayThemes | assets/src/app.js:33-41 | the menu loop consumes the answers up to the first accepted one, logs one prompt and answer per round, and returns that answer's theme; with no accepted answer it consumes everything and waits at the prompt |
| Console.Dialogue | src/app.js:77-86 | each prompt answered before the next gives two log entries per prompt |
| Console.DialogueAt | src/app.js:77-86 | prompt `i` sits at position `2i` of the exchange, and its answer right after it |
| Console.DialogueExtend | assets/src/app.js:58-63 | one more prompt and answer extend the exchange at its end |
| Console.Terminal.constructor | src/app.js:20-23 | a fresh interface holds the given lines and has shown nothing |
| Console.Terminal.Question | src/app.js:79 | `rl.question` shows the prompt and hands over the next line, removing it; with no line left nothing is answered |
| Blanks.Fill | src/app.js:93 | definition: `replace(/___/g, () => inputs.shift())`, scanning left to right, each `___` taking the next input or "undefined", inserted text not scanned |
| Blanks.Pieces | src/app.js:93 | the template cut at the markers the replace finds: always at least one piece |
| Blanks.MarkerCount | src/app.js:93 | definition: the number of cuts, one fewer than the pieces |
| Blanks.FillPositional | src/app.js:93 | with one input per marker, the result is the template's pieces with the `i`-th input between pieces `i` and `i+1`; inserted text is not scanned again |
| Blanks.FillTooFewInputs | assets/src/app.js:74 | markers beyond the inputs receive the text "undefined" |
| Blanks.FillIgnoresExtra | src/app.js:93 | inputs beyond the number of markers are never used |
| Blanks.FillWithoutMarkers | assets/src/app.js:74 | a template without `___` comes out unchanged |
| Blanks.PiecesRebuild | src/app.js:93 | putting the markers back between the pieces rebuilds the template |
| Blanks.PiecesFirstCut | assets/src/app.js:74 | the first piece runs up to the leftmost marker: no marker starts inside it; either it is the whole template, which holds no marker, or a marker follows it and the other pieces are those of the text after that marker |
| Blanks.PiecesHaveNoMarker | src/app.js:93 | no piece holds a marker: every `___` of the template is replaced |
| Blanks.PiecesBeforeCut | src/app.js:93 | every piece before a cut is empty or does not end in `_`: of a longer run of underscores the leftmost three are matched |
| Blanks.NoRescan | assets/src/app.js:74 | answering every blank with `___` itself gives back the template: replacement text is never matched again |
| Blanks.FillCopies | src/app.js:93 | text without underscores is copied through, and the scan goes on after it |
| Blanks.FillMarker | src/app.js:93 | a marker at the front takes the first input, and the rest of the text gets the remaining inputs |
| Blanks.FillTwo | src/app.js:93 | two markers after underscore-free text take the two inputs in order |
| Blanks.CatAndDog | assets/src/app.js:74 | "I have a ___ and a ___" with "cat" and "dog" gives "I have a cat and a dog" |
| WordWrap.Unwords | src/app.js:34-36 | definition: the running line, each word followed by one space |
| WordWrap.Place | src/app.js:32-37 | one pass of the `forEach` body on the lines built so far: a new line when the running line plus the word exceeds the width, else the word joins the last line; never leaves no line |
| WordWrap.Groups | src/app.js:31-38 | the words grouped into lines by the `forEach`, starting from one empty line; never empty |
| WordWrap.Rendered | src/app.js:33-40 | each line written as its running line trimmed; one written line per group |
| WordWrap.WrappedLines | src/app.js:27-40 | definition: the written lines of the greedy grouping of `text.split(' ')` |
| WordWrap.Wrap | src/app.js:26-42 | definition: `wrapText(text, width)`, the written lines joined by newlines; `WrapText` is proved to compute it |
| WordWrap.PlaceFlushes | src/app.js:32-34 | when the running line plus the word exceeds the width, the trimmed running line and a newline are output and the word starts a new line |
| WordWrap.PlaceExtends | src/app.js:35-36 | otherwise nothing is output and the word and a space join the running line |
| WordWrap.WrapText | src/app.js:26-42 | the loop's output is the greedy grouping's lines, trimmed and joined by newlines |
| WordWrap.PlaceFlatten | src/app.js:31-37 | each step appends its word to the words already placed |
| WordWrap.GroupsKeepWords | src/app.js:31-38 | the lines hold all the words of the text, in order |
| WordWrap.PlaceKeepsShape | src/app.js:32-36 | each step keeps every line but the first non-empty, and every line that passed the width test within the width |
| WordWrap.GroupsShape | src/app.js:31-38 | only the first line can be empty, and every line of two or more words (or the first line) fits |
| WordWrap.LongWordGroups | src/app.js:32-34 | a word longer than the width stands alone on a line |
| WordWrap.FirstGroupEmpty | src/app.js:32-34 | a first word longer than the width leaves an empty first line before it |
| WordWrap.OneGroup | src/app.js:35-36 | words whose running line stays within the width share one line |
| WordWrap.UnwordsJoin | src/app.js:36 | the running line is the words joined by spaces, plus one trailing space |
| WordWrap.UnwordsWithin | src/app.js:34-36 | the running line is made of the words' characters and spaces |
| WordWrap.LinesWithin | src/app.js:27-40 | every output line is made of the text's characters and spaces |
| WordWrap.WrapEmpty | src/app.js:27-40 | the empty text wraps to "" for every width >= 0, and to "\n" for a negative width |
| WordWrap.OutputLines | src/app.js:33-40 | splitting the output at newlines gives back exactly the lines written |
| WordWrap.GroupLineFits | src/app.js:32-36 | a line is within the width, unless it is one single word longer than the width (trimmed) |
| WordWrap.LinesFit | src/app.js:32-36 | every output line is within the width unless it is a single too-long word of the text, trimmed |
| WordWrap.LongWordsWhole | src/app.js:32-34 | a word longer than the width is never split: trimmed, it is a whole output line |
| WordWrap.JoinLeadingEmpty | src/app.js:33 | an empty first line makes the output start with a newline |
| WordWrap.LeadingNewline | src/app.js:32-34 | a first word longer than the width makes the output start with "\n" |
| WordWrap.FitsOnOneLine | src/app.js:26-42 | a text within the width, without surrounding whitespace, comes out unchanged |
| WordWrap.NonEmpty | src/app.js:27 | the words a reader sees contain no empty word |
| WordWrap.NonEmptyAppend | src/app.js:27 | the non-empty words of two lists are those of each, in order |
| WordWrap.TokensAtSpace | src/app.js:36 | a space separates the words on its two sides |
| WordWrap.TokensUnwords | src/app.js:36 | the running line reads back as its non-empty words |
| WordWrap.TokensTrim | src/app.js:33 | in a text whose only whitespace is the space, `trim` removes no word |
| WordWrap.TokensOfGroupLine | src/app.js:33 | one written line reads back as its group's non-empty words |
| WordWrap.TokensOfGroups | src/app.js:31-40 | all written lines read back as all non-empty words, in order |
| WordWrap.WordsKept | src/app.js:27-40 | reading the output line by line and word by word gives the words of the text in order |
| Game.PromptText | src/app.js:79 | definition: the question for a placeholder, `prompt + ": "` |
| Game.Template | assets/src/app.js:74 | definition: `story.story.join(' ')` |
| Game.Tell | src/app.js:73-93 | definition: the questions for the placeholders in order; short of lines, the game waits at the next question; otherwise the template filled with the answers, the rest of the lines unread |
| Game.Draw | assets/src/app.js:46-51 | definition: a theme without stories crashes with nothing asked; otherwise the story at `RandomIndex` is told |
| Game.AfterMenu | assets/src/app.js:33-41 | definition: no accepted answer leaves the game waiting at the menu; otherwise the menu exchange up to the accepted answer, then `Draw` on the chosen theme and the lines after it |
| Game.Session | assets/src/app.js:26-78 | definition: `AfterMenu` on the verdict `FirstAccepted` gives for the typed lines |
| Game.WrapOutcome | src/app.js:95 | definition: a completed story wrapped at 75 columns; other outcomes unchanged |
| Game.RandomIndex | src/app.js:67 | `Math.floor(Math.random() * n)` is a valid position in a non-empty story list |
| Game.PromptForInputs | src/app.js:73-89 | one question per placeholder, in order, with `placeholder.prompt + ": "`; the answers are the next lines exactly as typed; when lines run out the game waits at the next prompt |
| Game.TellStory | assets/src/app.js:54-76 | the story is told as `Tell` says: the questions, then the filled template once every placeholder is answered |
| Game.SelectRandomStory | assets/src/app.js:46-51 | the drawn story is told, and a theme without stories crashes before anything is asked |
| Game.Play | assets/src/app.js:26-81 | a whole session of the older edition has the outcome, exchange and unread lines of `Session` |
| Game.PlayWrapped | src/app.js:45-100 | a whole session of the current edition is the same session, with the completed story wrapped at 75 columns |
| Game.TwoBlankSession | assets/src/app.js:33-76 | in a one-theme, one-story catalog with two blanks, "1" and two words complete the story with those words in order, reading every line |
| Game.TwoBlankStory | assets/src/app.js:46-76 | once theme 1 is selected, the only story of the theme is drawn and filled with the next two lines |
| Game.CowJumpedOverTheMoon | assets/src/app.js:26-78 | theme "Animals" with "The ___ jumped over the ___", answers "1", "cow", "moon": the completed story is "The cow jumped over the moon" |
| Game.StoryLineUnwrapped | src/app.js:95 | the current edition prints that story unchanged: it fits on one 75-column line |
| Game.MenuRetries | src/app.js:57-60 | a rejected menu answer adds one prompt and answer to the exchange, and the session goes on from the next line as if it had not been typed |
| Game.MenuDialoguePrepend | assets/src/app.js:38-40 | one more rejected round at the front adds its prompt and answer at the front of the exchange |
| Game.CompletedUsesOneLinePerBlank | assets/src/app.js:58-74 | a completed session used exactly one line per placeholder after the accepted menu answer, filled the blanks with them in order, and leaves the rest unread |

## Left out

- Loading the catalog from `./assets/stories.json` (`fs.readFileSync`, `JSON.parse`, and the crash on a missing or malformed file): file I/O. The catalog is a parameter.
- `console.log` output (welcome lines, the numbered theme list, the error message, the "completed story" heading): only the computed strings are modelled. The welcome lines passed through `wrapText` are not modelled separately.
- The order of `Object.keys(storiesData.themes)`: the catalog is given as an ordered list of themes.
- `rl.close()` and the asynchronous callback scheduling of `rl.question`: the model runs the callbacks in order, as soon as the next typed line is available.
- `Math.random()` floating point: the draw is a real parameter in `[0, 1)`, and `Math.floor` of its product with the count is exact.
- `parseInt` beyond decimal: the `0x` prefix, a radix, numbers beyond double precision, and Unicode digits other than `0`-`9`.
- String lengths: Dafny counts characters, JavaScript counts UTF-16 code units. They agree on text without characters outside the Basic Multilingual Plane.
- WordWrap.LinesFit: requires a width `>= 0` and a text without `'\n'`, since a newline inside the text would make `'\n'` split a line further.
- WordWrap.LongWordsWhole: requires a text without `'\n'`, for the same reason.
- WordWrap.WordsKept: requires a text whose only whitespace character is the space, because `trim` would otherwise remove tabs or other whitespace at the ends of a line, and a word made only of them.
- Game.CompletedUsesOneLinePerBlank: stated on `AfterMenu` for any menu verdict that `FirstAccepted` could produce. `Session` is `AfterMenu` on the verdict of `FirstAccepted`.
- Game.Play, Game.PlayWrapped, Game.TellStory, Game.SelectRandomStory: their contracts tie the terminal's new state to `Session`, `Draw` and `Tell`. The properties of those functions are the lemmas above.
