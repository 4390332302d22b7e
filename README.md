# Voice assistant command interpreter

This project models `VoiceAssistant.handle_command` from the voice-assistant
repository: the function that takes one utterance (recognised speech or typed
text) and decides what the assistant does with it. The function is a
first-match-wins classifier over the utterance lower-cased and stripped of
surrounding white space. It answers with a greeting, the current time, the
current date, a web search (or a request for a query), a farewell that ends
the process, or a fallback apology. The empty utterance is "not heard".

The model is pure. Each spoken answer is an `Outcome`: the text that is spoken,
plus the one side effect performed with it.

- `Reply(msg)` has no side effect.
- `ReplyAndOpen(msg, url)` opens the browser on `url`.
- `ReplyAndExit(msg)` ends the process.

The clock reading is a `Clock` parameter.

Files and modules:

- `wrappers.dfy`, module `Wrappers`: the `Option` type shared by the parsers and searches.
- `text.dfy`, module `Text`: the Python string operations the interpreter uses.
  - `str.lower`: the model folds ASCII letters only.
  - `str.strip`: removes the code points for which `str.isspace` holds.
  - `in`, `str.startswith` and `str.split(sep, 1)`.
  - `Find` is the first-occurrence search that `in` and `split` rest on.
- `quote.dfy`, module `Quote`: `urllib.parse.quote_plus` with its default arguments.
  - Encoding is UTF-8, as in section 3 of RFC 3629.
  - `Unquote` is the decoder beside it, and `UnquoteQuotePlus` is the round trip.
- `strftime.dfy`, module `Strftime`: the `strftime` conversions the replies use, in the "C" locale (section 7.27.3.5 of ISO C11).
  - `%I:%M %p` for the time and `%B %d, %Y` for the date.
  - Each has a parser, and a round-trip lemma shows the spoken text determines the clock reading.
- `assistant.dfy`, module `Assistant`: the outcomes, the messages, `ExtractQuery`, `Respond` and `HandleCommand`.
  - `Respond` is the classification of a normalised command.
  - `HandleCommand` is the whole of `handle_command`.
- `properties.dfy`, module `Properties`: all-input lemmas about the interpreter.
  - For each outcome, exactly which commands get it. Together these fix the precedence greeting > time > date > search > exit > fallback.
  - Insensitivity to letter case and to surrounding white space.
  - The exact-match rule for the exit words.
  - What the search URL carries.
- `scenarios.dfy`, module `Scenarios`: concrete commands and their outcomes.

Two consequences of the order of the code are worth stating:

- A white-space-only utterance is non-empty at the emptiness test (assistant.py:81) but strips to "" (assistant.py:84). So it gets the fallback apology, not "I didn't hear anything." (`Properties.WhitespaceOnlyFallsBack`).
- "search for the time" is told the time, and no browser opens. The "time" test (assistant.py:87) runs before the search test (assistant.py:95) (`Scenarios.SearchForTheTimeTellsTime`).

## Model

| member | source | states |
|---|---|---|
| Assistant.HandleCommand | assistant.py:79-112 | Only the empty utterance is answered "I didn't hear anything."; a browser is only ever opened on a URL starting with the search prefix; the process only ends after saying "Goodbye!" |
| Assistant.Respond | assistant.py:84-112 | A non-empty command never gets the "not heard" answer; an opened URL starts with `https://www.google.com/search?q=`; an exit always says "Goodbye!" |
| Assistant.ExtractQuery | assistant.py:97-102 | The query is a piece of the command with no white space at either end |
| Properties.NormalizedCommand | assistant.py:84 | `Normalize`: the command is a piece of the lower-cased utterance with no upper-case letter and no white space at either end |
| Properties.FoldedPiece | assistant.py:84 | A piece of lower-cased text has no upper-case letter and occurs in that text |
| Properties.WhitespaceOnlyFallsBack | assistant.py:81-84 | Non-empty white-space-only input gets the fallback apology, not "I didn't hear anything." |
| Properties.CaseInsensitive | assistant.py:84 | Utterances equal up to ASCII letter case get the same outcome |
| Properties.PaddingInsensitive | assistant.py:84 | White space around a non-empty utterance does not change its outcome |
| Properties.RepliesDistinct | assistant.py:82-112 | The time and date replies differ from each other and from every fixed message, so each `Reply` identifies the check that answered |
| Properties.GreetsByFind | assistant.py:85 | `Greets`, the greeting test: "hello" occurs somewhere in the command, or the first "hi" is at its start |
| Properties.AsksSearchByFind | assistant.py:95 | `AsksSearch`, the search test: the first "search" or "find" is at the start, or "search for" occurs somewhere |
| Properties.TimeReplyNamesClock | assistant.py:88-90 | `TimeReply` is "The time is " followed by a time that reads back to the hour and minute of the clock |
| Properties.DateReplyNamesClock | assistant.py:92-94 | `DateReply` is "Today is " followed by a date that reads back to the year, month and day of the clock |
| Properties.GreetingIff | assistant.py:85-86 | The greeting is given if and only if the command contains "hello" or starts with "hi", whatever else it contains |
| Properties.TimeIff | assistant.py:87-90 | The time is told if and only if the command contains "time" and does not greet |
| Properties.DateIff | assistant.py:91-94 | The date is told if and only if the command contains "date", does not mention "time" and does not greet |
| Properties.SearchIff | assistant.py:95-108 | The browser opens if and only if the command asks for a search, passes the earlier checks and has a non-empty query; it then opens the search URL for that query and names the query in the reply |
| Properties.AskQueryIff | assistant.py:95-105 | A search request that passes the earlier checks but has an empty query, and only such a request, is answered with "What would you like me to search for?" |
| Properties.ExitIff | assistant.py:109-111 | The process ends if and only if the utterance is non-empty and its normalised form is exactly one of "exit", "quit", "bye", "goodbye" |
| Properties.RespondExitIff | assistant.py:109-111 | A normalised command ends the process if and only if it is exactly one of the four exit words |
| Properties.ExitWordsPassEarlierChecks | assistant.py:85-109 | None of the exit words greets, mentions "time" or "date", or asks for a search, so the exit check is reached for each of them |
| Properties.FallbackIff | assistant.py:112 | The apology is given if and only if no check matches |
| Properties.MissingCharacter | assistant.py:85-98 | A keyword with a character the command lacks does not occur in the command |
| Properties.SearchUrlCarriesQuery | assistant.py:106 | `SearchUrl`: the search URL is the prefix followed by URL-safe characters only, and these decode to exactly the UTF-8 bytes of the query |
| Properties.QueryAfterSearchFor | assistant.py:98-99 | When "search for" occurs, the query is the stripped text after its first occurrence |
| Properties.QueryAfterFirstSpace | assistant.py:100-102 | Otherwise the query is the stripped text after the first space, or empty when there is no space |
| Scenarios.HistoryGreets | assistant.py:85-86 | "history" starts with "hi" and is greeted |
| Scenarios.HelloBeforeTime | assistant.py:85-90 | "hello, what time is it" mentions "time" but is greeted |
| Scenarios.SearchForTheTimeTellsTime | assistant.py:87-95 | "search for the time" asks for a search but is told the time |
| Scenarios.SearchForADateTellsDate | assistant.py:91-95 | "search for a date" asks for a search but is told the date |
| Scenarios.SearchForCatsQuery | assistant.py:98-99 | The query of "search for cats" is "cats" |
| Scenarios.CatsUrl | assistant.py:106 | "cats" is carried into the URL unchanged |
| Scenarios.SearchForCatsOpensBrowser | assistant.py:95-108 | "search for cats" opens the browser on the search URL for "cats" |
| Scenarios.FindRedShoes | assistant.py:100-102 | The query of "find red shoes" is "red shoes" |
| Scenarios.SearchAloneAsks | assistant.py:95-105 | "search" alone asks for a query and opens nothing |
| Scenarios.FinderAsks | assistant.py:95-105 | "finder" starts with "find", has no space, and is asked for a query |
| Scenarios.PaddedQuitExits | assistant.py:84-111 | " Quit " ends the process after saying "Goodbye!" |
| Scenarios.ExitNowFallsBack | assistant.py:109-112 | "exit now" is not an exit word and gets the apology |
| Strftime.FormatTime | assistant.py:89 | `%I:%M %p` is eight characters: a two-digit hour in 1..12 congruent to the hour modulo 12 (hour 0 reads 12), a colon, the two-digit minute, a space, and "AM" exactly before noon |
| Strftime.ParseFormatTime | assistant.py:89 | The spoken time can be read back to the 24-hour hour and minute it came from |
| Strftime.TwoDigits | assistant.py:89-93 | `%I`, `%M` and `%d` are two decimal digits denoting the number |
| Strftime.Hour12 | assistant.py:89 | The 12-hour clock reads 1..12 and agrees with the hour modulo 12 |
| Strftime.Meridiem | assistant.py:89 | `%p` is "AM" exactly before noon, otherwise "PM" |
| Strftime.MonthNumberOfName | assistant.py:93 | `%B` names each month differently, so the month can be read back |
| Strftime.MonthName | assistant.py:93 | `%B` is a month name of at least three characters with no space and no digit, so the date splits at the first space after it |
| Strftime.Decimal | assistant.py:93 | `%Y` is a non-empty string of decimal digits without padding: no leading '0' for a positive year, and as many characters as the year has digits (four for 1000..9999) |
| Strftime.ParseDecimalOfDecimal | assistant.py:93 | `%Y` can be read back to the year |
| Strftime.ParseFormatDate | assistant.py:93 | `FormatDate`: the spoken date `%B %d, %Y` can be read back to the year, month and day it came from |
| Quote.QuotePlus | assistant.py:106 | `quote_plus` output has only unreserved characters, `+` and `%`, and is no shorter than its input |
| Quote.UnquoteQuotePlus | assistant.py:106 | Decoding the output of `quote_plus` gives back the UTF-8 bytes of the query |
| Quote.Utf8 | assistant.py:106 | A code point encodes to one to four bytes: one byte exactly for ASCII, a lead byte in the range that announces the length, continuation bytes in 0x80..0xBF |
| Quote.Utf8Decodes | assistant.py:106 | Each encoded character decodes back to its code point, so distinct characters have distinct encodings |
| Quote.Utf8String | assistant.py:106 | `encode('utf-8')` gives one to four bytes per character, and ASCII text byte for byte |
| Text.Lower | assistant.py:84 | `lower` keeps the length and folds each character on its own |
| Text.LowerIdempotent | assistant.py:84 | Folding a folded string changes nothing |
| Text.Strip | assistant.py:84 | `strip` returns a piece of its input that neither starts nor ends with white space |
| Text.StripSplits | assistant.py:84 | The input is what `strip` returns, with white space before and after it |
| Text.StripUnique | assistant.py:84 | Whatever is wrapped in white space and has none at its ends is what `strip` returns |
| Text.StripPadded | assistant.py:84 | Extra white space around the input does not change what `strip` returns |
| Text.StripIdempotent | assistant.py:84 | Stripping twice is stripping once |
| Text.StripEmptyIff | assistant.py:84 | `strip` returns the empty string if and only if the input is all white space |
| Text.ContainsPiece | assistant.py:85-98 | `Contains`, the `in` test: it holds wherever the keyword is written into the text; with Text.Find, exactly when the keyword occurs |
| Text.StartsWithFind | assistant.py:85-95 | `StartsWith`: `startswith` holds exactly when the first occurrence of the prefix is at index 0 |
| Text.Find | assistant.py:98-101 | The first occurrence of a keyword, with none before it; none exactly when the keyword does not occur |
| Text.SplitOnce | assistant.py:99-101 | `split(sep, 1)` has two parts exactly when the separator occurs, the first part free of it, otherwise the whole string |
| Text.SplitOnceJoin | assistant.py:99-101 | The two parts joined by the separator give back the string |

## Left out

- `speak`, `listen`, `listen_text` and `__init__` (assistant.py:27-77) are microphone, speech-recognition, text-to-speech and console I/O. A spoken answer is the `msg` of the `Outcome`.
- The read-dispatch loops in `__main__.py` and at assistant.py:115-120, including the handling of `KeyboardInterrupt` and `SystemExit`, are process plumbing.
- `webbrowser.open` (assistant.py:107) is the `ReplyAndOpen` outcome. Whether a browser actually opens is not modelled.
- `sys.exit(0)` (assistant.py:111) is the `ReplyAndExit` outcome. Process termination itself is not modelled.
- The clock reads `datetime.now()` (assistant.py:88) and `date.today()` (assistant.py:92) are one `Clock` parameter with range preconditions. Each call reads the clock at most once, so one `Clock` per call models it exactly.
- Text.Lower: folds ASCII letters only. Python's full Unicode case mapping is not modelled, including mappings that change a string's length.
- Text.IsSpace: a fixed list of the code points for which `str.isspace` holds; a later Unicode version adding white space would not be reflected.
- Strftime.FormatDate: has no contract of its own. What it promises is stated by Strftime.ParseFormatDate.
- Strftime.Decimal: writes `%Y` without padding, as the GNU C library does for years 1..999. Platforms that pad such years to four digits are not modelled.
- The "C" locale only: locale-dependent month names and AM/PM markers are not modelled.
- Strings are sequences of Unicode scalar values. A Python string can also hold a lone surrogate, on which `quote_plus` raises `UnicodeEncodeError`. That error path is not modelled.
- Quote.Unquote: accepts only the characters `quote_plus` can produce. It does not model `unquote_plus`'s leniency on malformed escapes or its decoding of other characters.
