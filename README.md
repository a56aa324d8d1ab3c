# Resume text cleaning, section lookup and a WebSocket chat, in Dafny

This project models the self-contained logic of a small Python repository:

- the two `clean_text` functions of the resume pipeline (`task6/pdf_parse.py` and
  `task6/store_vectors.py`), which re-space the text that a PDF extraction produces:
  collapse whitespace, join letter-spaced words (`S U M M A R Y`), split headings glued to
  the next word (second version only), and put a space at `aB`, `2x` and `.x` boundaries;
- the section lookup of `task6/query_rag.py`: `detect_section` picks a resume section from
  the words of a question, `make_heading_regex` builds a whitespace-tolerant,
  case-insensitive heading pattern, and `extract_section` cuts a section out of the resume
  text, from its heading to the nearest other heading or contact detail;
- the `ConnectionManager` of `websocket/main.py` and the handler that uses it: a list of
  open connections, broadcast of every received text as `"Message: ..."`, and the leave
  announcement.

Every regular-expression substitution is written out as a left-to-right scan with Python's
`re.sub` semantics (leftmost match first, no overlap, greedy repetition that gives back what
the rest of the pattern needs), and each scan is tied to an independent description of what
it produces: whitespace collapsing to `" ".join(s.split())`, the letter-run scan to a
relation saying when `(?:\b[X]\s){2,}[X]\b` matches, the boundary scans to a rule that puts
one space into every adjacency of their kind, and the heading search to a relation saying
when a heading pattern describes a stretch of text. Character classes are their ASCII members: `\s` is tab, line feed,
vertical tab, form feed, carriage return, space and U+001C..U+001F; `\w` is `[A-Za-z0-9_]`;
`\d` is `[0-9]`; `re.IGNORECASE`, `str.lower` and `str.upper` fold ASCII letters only.

Modules (one file each): `Optional`, `Chars` (character classes), `TextSpaces` (`\s+`
collapsing, `strip`, spacing predicates), `LetterRuns` (steps 2 and 3 of both cleaners),
`Boundaries` (step 5 of both cleaners), `PdfParse`, `StoreVectors`, `HeadingMatch`
(`make_heading_regex` and the search), `QueryRag` and `ChatServer`.

## Model

| member | source | states |
|---|---|---|
| TextSpaces.RemoveSpaces | task6/pdf_parse.py:14 | `str.replace(" ", "")`: the result holds no space and is no longer than the text |
| TextSpaces.Strip | task6/pdf_parse.py:39 | `str.strip()`: the result has no whitespace at either end, is no longer than the input, and loses no other character |
| TextSpaces.StripSlice | task6/pdf_parse.py:39 | stripping cuts only whitespace from both ends: the result is a slice with whitespace-only text before and after it |
| TextSpaces.StripTrimmed | task6/pdf_parse.py:39 | stripping text without whitespace at its ends changes nothing |
| TextSpaces.CollapseFrom | task6/pdf_parse.py:9 | `re.sub(r"\s+", " ", ...)` never lengthens the text |
| TextSpaces.Normalize | task6/pdf_parse.py:9 | collapsing and stripping never lengthens the text |
| TextSpaces.NormalizeSpec | task6/pdf_parse.py:9 | step 1, `re.sub(r"\s+", " ", text).strip()`, yields single-spaced text (only ' ', never two in a row, none at the ends), no longer than the input, with exactly the input's non-whitespace characters in order |
| TextSpaces.CollapseSpacing | task6/pdf_parse.py:9 | `\s+` → ' ' leaves only plain spaces, never two in a row, and starts with a space exactly where the input starts with whitespace |
| TextSpaces.CollapseKeeps | task6/pdf_parse.py:9 | `\s+` → ' ' removes no character other than whitespace and reorders nothing |
| TextSpaces.WordsCollapse | task6/pdf_parse.py:9 | `re.sub(r"\s+", " ", s)` has the same words (`str.split()`) as `s` |
| TextSpaces.WordsStrip | task6/pdf_parse.py:9 | `str.strip()` keeps the words of a text |
| TextSpaces.JoinSplitWords | task6/pdf_parse.py:9 | single-spaced text is its words joined by single spaces |
| TextSpaces.NormalizeJoinsWords | task6/pdf_parse.py:8-9 | step 1 equals `" ".join(s.split())`: the words are kept and every whitespace run between two of them becomes exactly one space |
| TextSpaces.NormalizeWellSpaced | task6/pdf_parse.py:9 | step 1 leaves single-spaced text unchanged |
| TextSpaces.WordsShape | task6/pdf_parse.py:9 | the words of a text (`str.split()`) are non-empty and hold no whitespace |
| TextSpaces.WordsConcat | task6/pdf_parse.py:9 | glued together, the words of a text are the text without its whitespace |
| LetterRuns.MatchEnd | task6/pdf_parse.py:13 | the end the engine reports for the letter-run pattern at a position lies at least five characters on and within the text |
| LetterRuns.MatchEndSpec | task6/pdf_parse.py:12-16 | the scan reports a match at a position exactly when `(?:\b[X]\s){2,}[X]\b` matches there, and then reports the longest match, the one greedy repetition finds |
| LetterRuns.Replacement | task6/pdf_parse.py:14-23 | a replaced match keeps its characters other than spaces; step 3 returns a match starting with "I " unchanged; every other replacement holds no space |
| LetterRuns.JoinFrom | task6/pdf_parse.py:12-25 | steps 2 and 3 never lengthen the text |
| LetterRuns.JoinMatched | task6/pdf_parse.py:12-25 | where the pattern matches, its longest match loses its spaces (or, in step 3, is copied when it starts with "I ") and the scan goes on after it |
| LetterRuns.JoinUnmatched | task6/pdf_parse.py:12-25 | where the pattern cannot match, the character is copied and the scan goes on at the next one |
| LetterRuns.JoinLetterSpaced | task6/store_vectors.py:28-43 | three or more class letters joined by single spaces come back joined: "S U M M A R Y" → "SUMMARY" in step 2, "P y t h o n" → "Python" in step 3 unless the run starts with "I " |
| LetterRuns.JoinRunsSpec | task6/pdf_parse.py:12-25 | steps 2 and 3 only delete spaces that stand between two letters; the text keeps its other characters in order, gets no longer, and stays single-spaced |
| LetterRuns.JoinWithoutRuns | task6/pdf_parse.py:12-25 | where the pattern matches nowhere, steps 2 and 3 change nothing |
| LetterRuns.KeepsPronounRun | task6/pdf_parse.py:19-22 | step 3 copies a matched run that starts with "I " unchanged |
| LetterRuns.JoinStepsSpec | task6/pdf_parse.py:9-25 | after steps 1 to 3 the text is single-spaced and, without its spaces, equals the input without its whitespace |
| LetterRuns.JoinStepsKeeps | task6/pdf_parse.py:9-25 | steps 1 to 3 leave single-spaced text without letter runs unchanged |
| LetterRuns.JoinStepsSpacedCapitals | task6/store_vectors.py:26-33 | steps 1 to 3 turn a letter-spaced heading in capitals into the heading |
| LetterRuns.JoinStepsSpacedWord | task6/store_vectors.py:26-43 | steps 1 to 3 turn a letter-spaced capitalised or lowercase word into the word, unless it starts with "I " |
| Boundaries.SplitGaps | task6/pdf_parse.py:31-37 | a boundary substitution never shortens the text |
| Boundaries.SplitGapsBound | task6/pdf_parse.py:31-37 | a boundary substitution adds at most one space for every two characters |
| Boundaries.SplitStep | task6/pdf_parse.py:31-37 | one substitution keeps every character other than spaces, leaves no adjacency of its kind, and keeps single-spaced text single-spaced |
| Boundaries.SplitGapsSpec | task6/pdf_parse.py:31-37 | the leftmost, non-overlapping substitution puts one space between the two characters of every adjacency of its kind, and nowhere else |
| Boundaries.SplitNoHit | task6/pdf_parse.py:31-37 | text without the adjacency is left unchanged |
| Boundaries.SplitEnds | task6/pdf_parse.py:31-37 | a boundary substitution keeps emptiness and the first and last character |
| Boundaries.SplitKeeps | task6/pdf_parse.py:31-37 | a boundary substitution only inserts spaces |
| Boundaries.SplitRemovesHits | task6/pdf_parse.py:31-37 | after `([a-z])([A-Z])`, `(\d)([A-Za-z])` or `([.,;:])([A-Za-z])` → `\1 \2`, that adjacency occurs nowhere in the text |
| Boundaries.SplitKeepsNoHit | task6/pdf_parse.py:31-37 | a later boundary substitution creates none of the adjacencies an earlier one removed |
| Boundaries.SplitSpacing | task6/pdf_parse.py:31-37 | a boundary substitution keeps text plain-spaced and free of double spaces |
| Boundaries.SplitAllSpec | task6/pdf_parse.py:29-37 | step 5 as a whole: only spaces are inserted, none of the three adjacencies is left, and single spacing survives |
| Boundaries.SplitAllKeeps | task6/pdf_parse.py:29-37 | step 5 leaves text without any of the three adjacencies unchanged |
| PdfParse.CleanText | task6/pdf_parse.py:5-39 | the cleaned text has no whitespace but single ' ' characters, none at either end; without its spaces it is the input without its whitespace, so nothing else is changed, dropped or reordered; and it has no lowercase letter before an uppercase one, no digit before a letter and none of `. , ; :` before a letter |
| PdfParse.CleanTextEmpty | task6/pdf_parse.py:5-6 | `None` and `""` both clean to `""` |
| PdfParse.CleanTextEmptyIff | task6/pdf_parse.py:5-39 | the cleaned text is empty exactly when the input holds only whitespace |
| PdfParse.CleanTextKeepsCleanText | task6/pdf_parse.py:5-39 | text that is single-spaced, has no letter run and none of the three adjacencies is returned unchanged |
| PdfParse.CleanTextSpacedCapitals | task6/pdf_parse.py:11-16 | a letter-spaced heading in capitals such as "S U M M A R Y" is cleaned to "SUMMARY" |
| PdfParse.CleanTextSpacedWord | task6/pdf_parse.py:18-25 | a letter-spaced word such as "P y t h o n" is cleaned to "Python", unless it starts with "I " |
| StoreVectors.ReplaceAll | task6/store_vectors.py:56 | `str.replace(k, v)` with a non-empty `k` and a `v` at least as long never shortens the text |
| StoreVectors.ReplaceKeeps | task6/store_vectors.py:55-56 | `str.replace(k, v)` with `v` being `k` plus spaces only inserts spaces and keeps text plain-spaced |
| StoreVectors.ReplaceAbsent | task6/store_vectors.py:56 | where `k` does not occur, `str.replace` changes nothing |
| StoreVectors.ReplaceLeftmost | task6/store_vectors.py:56 | `str.replace` copies the text before the leftmost occurrence, puts `v` in its place, and continues after it |
| StoreVectors.ApplyFixes | task6/store_vectors.py:55-56 | the loop over `fixes`, when each entry only inserts spaces, only inserts spaces and keeps text plain-spaced |
| StoreVectors.ApplyFixesAbsent | task6/store_vectors.py:55-56 | where no key of `fixes` occurs, the loop changes nothing |
| StoreVectors.FixesInsertSpaces | task6/store_vectors.py:46-54 | every entry of `fixes`, "WORKEXPERIENCE" → "WORK EXPERIENCE " and "TECHNICALCONTENTWRITER" → "TECHNICAL CONTENT WRITER " included, only inserts spaces |
| StoreVectors.FixMayDoubleSpace | task6/store_vectors.py:47 | a fix appends its space even when one follows: "SUMMARY x" becomes "SUMMARY  x", with two spaces in a row |
| StoreVectors.CleanSpec | task6/store_vectors.py:22-63 | the cleaned text, steps 1-3, the `fixes` replacements in dictionary order, step 5 and `strip`: without its spaces it is the input without its whitespace; its only whitespace is ' ', none at either end; no `aB`, digit-letter or punctuation-letter adjacency is left |
| StoreVectors.CleanText | task6/store_vectors.py:22-63 | the step-by-step cleaner, with its loop over `fixes`, computes `CleanSpec` |
| StoreVectors.CleanSpecKeepsCleanText | task6/store_vectors.py:22-63 | text that is single-spaced, has no letter run, no key of `fixes` and none of the three adjacencies is returned unchanged |
| HeadingMatch.MakeHeadingPattern | task6/query_rag.py:47-54 | one pattern piece per heading character, in order: `\s+` for a space, the character itself followed by `\s*` for anything else |
| HeadingMatch.FirstMatch | task6/query_rag.py:54 | a match the engine reports at a position ends at or after it and within the text |
| HeadingMatch.FirstMatchSound | task6/query_rag.py:47-54 | every end the backtracking engine reports is the end of a text the pattern describes |
| HeadingMatch.FirstMatchComplete | task6/query_rag.py:47-54 | wherever the pattern describes some text, the engine reports a match |
| HeadingMatch.Search | task6/query_rag.py:86 | `pattern.search(text, pos)` reports the leftmost position at or after `pos` where the engine matches, and no match when there is none |
| HeadingMatch.SearchSpec | task6/query_rag.py:86 | the search succeeds exactly when the pattern describes a part of the text starting at or after `pos`, and then starts at the leftmost such part |
| HeadingMatch.MatchesOwnText | task6/query_rag.py:47-54 | a heading's pattern matches the heading itself |
| HeadingMatch.MatchesLetterSpaced | task6/query_rag.py:47-54 | the pattern of a heading without spaces matches its letter-spaced form, e.g. "S U M M A R Y" |
| HeadingMatch.MatchesIgnoresCase | task6/query_rag.py:54 | texts equal up to case are matched alike |
| HeadingMatch.SearchFindsHeading | task6/query_rag.py:47-54 | a text that holds the heading in any case is found by the search, at that place or earlier |
| QueryRag.Classify | task6/query_rag.py:59-71 | the keyword chain only ever answers one of `HEADINGS` |
| QueryRag.DetectSection | task6/query_rag.py:57-71 | the keyword chain runs on the lowered, stripped query, and a detected section is always one of `HEADINGS` |
| QueryRag.DetectSectionFirstRule | task6/query_rag.py:57-71 | the answer is the heading of the first keyword rule (summary, education, skill, certificate/certification, project, work/experience) that hits `query.lower().strip()`; `None` exactly when no keyword occurs |
| QueryRag.ClassifyFirstRule | task6/query_rag.py:57-69 | the if-chain answers with the heading of the first rule whose keyword occurs in its argument, and with `None` exactly when no rule hits |
| QueryRag.StripLower | task6/query_rag.py:58 | lowering and stripping commute, so `query.lower().strip()` is also the lowered stripped query |
| QueryRag.DetectSectionIgnoresCase | task6/query_rag.py:58 | queries that differ only in case get the same section |
| QueryRag.StopStart | task6/query_rag.py:93-97 | a stop candidate equal to the section up to case is never a stop; otherwise its start is the leftmost match at or after the heading's end |
| QueryRag.NearestStop | task6/query_rag.py:91-98 | the running `end` lies between the heading's end and the end of the text |
| QueryRag.EarliestSpec | task6/query_rag.py:97-98 | the running minimum `m.start() if end is None else min(end, m.start())` ends as the smallest start seen, and `None` only when no start was seen |
| QueryRag.NearestStopSpec | task6/query_rag.py:90-98 | `end` is the smallest start among the matches of all other stop candidates, and is `None` exactly when none matches |
| QueryRag.SectionBlock | task6/query_rag.py:84-102 | the extracted block is no longer than `full_text` |
| QueryRag.SectionBlockSpec | task6/query_rag.py:84-102 | `""` when the heading occurs nowhere; otherwise the block runs from the leftmost heading match to `end` (to the end of the text when there is no `end`), keeps that stretch's non-whitespace characters in order, and is single-spaced |
| QueryRag.NearestStopLoop | task6/query_rag.py:90-98 | the loop over the stop candidates, skipping the section itself and keeping the smallest start found after the heading, ends with exactly the `end` that `NearestStop` describes |
| QueryRag.ExtractSection | task6/query_rag.py:84-102 | finding the heading, running the stop loop over `HEADINGS + EXTRA_STOPS`, cutting, stripping and collapsing whitespace computes exactly the block described by `SectionBlock` |
| ChatServer.IndexOf | websocket/main.py:55 | the position found holds the first occurrence, and is the length exactly when the connection is absent |
| ChatServer.RemoveFirst | websocket/main.py:55 | `list.remove`: one element fewer, the first occurrence gone, everything else kept in order |
| ChatServer.RemoveAppended | websocket/main.py:50-55 | appending a connection that was not open and then removing it gives back the original list |
| ChatServer.Sends | websocket/main.py:57-59 | a broadcast makes one send per connection, in list order |
| ChatServer.SendsReach | websocket/main.py:57-59 | a broadcast reaches exactly the connections in the list, with the given message |
| ChatServer.CountSends | websocket/main.py:57-59 | a broadcast sends to each connection as often as it is in the list |
| ChatServer.BroadcastOnce | websocket/main.py:57-59 | in a list without repeats, each connection receives a broadcast exactly once |
| ChatServer.ChatLine | websocket/main.py:73 | a chat line is "Message: " followed by the received text |
| ChatServer.ChatSends | websocket/main.py:71-73 | broadcasting the chat line of each received text makes one send per open connection per text |
| ChatServer.ConnectionManager.constructor | websocket/main.py:47-48 | a new manager has no connections |
| ChatServer.ConnectionManager.Connect | websocket/main.py:50-52 | the connection is appended at the end; earlier entries are unchanged |
| ChatServer.ConnectionManager.Disconnect | websocket/main.py:54-55 | the first occurrence is removed and the rest kept in order; an absent connection is an error that changes nothing |
| ChatServer.ConnectionManager.Broadcast | websocket/main.py:57-59 | one send per connection, in list order, appended to the log; the list is unchanged |
| ChatServer.ConnectionManager.Session | websocket/main.py:67-76 | connect, broadcast each received text as a chat line to the list that includes the client, remove the client, then announce the leave to the remaining list |
| ChatServer.SessionLeave | websocket/main.py:74-76 | for a client not connected before, the session restores the list, and the leaving client is not among the recipients of "A client left the chat" |
| ChatServer.ChatSendsReach | websocket/main.py:71-73 | during a session every chat line goes to every open connection, the sender included, and nothing else is sent |

## Left out

- The PDF loading, chunking, embedding and database code (`main` of `task6/store_vectors.py`, the script part of `task6/pdf_parse.py`, `fetch_full_text`, `rag_semantic_retrieve`, `to_pgvector_literal`, `openrouter_answer` and `main` of `task6/query_rag.py`): library calls, floating point and I/O whose behaviour is not visible. `extract_section` takes the joined text as a parameter.
- `task7/main.py`: an orchestration script calling a language-model library, with no local logic.
- The FastAPI routing, the HTML page and the `accept`, `send_text` and `receive_text` I/O of `websocket/main.py`. A send is a log entry; the texts a client sends are a parameter of `Session`, and the `WebSocketDisconnect` that ends the receive loop is its end.
- Concurrency in `websocket/main.py`: each operation is atomic, so other sessions never change the list while a broadcast walks it, and `Session` models one client's session without other sessions interleaved.
- Unicode: `\s`, `\w`, `\d`, `IGNORECASE`, `str.lower` and `str.upper` are restricted to ASCII, as described above; non-ASCII whitespace and letters are treated as ordinary characters.
- StoreVectors.CleanSpec: does not claim single spacing, because the `fixes` step can produce two spaces in a row (`FixMayDoubleSpace` shows it).
- LetterRuns.JoinStepsSpacedWord: covers letter-spaced words whose letters after the first are lowercase; when three or more capitals stand inside such a word ("a B C D"), step 2 joins them first and step 3 then finds no single run, so the word is not restored, as in the code.
- QueryRag.SectionBlockSpec: an `end` of 0 counts as no end (`if end`), as in the code; this can only happen for an empty section name, which `detect_section` never produces.
- No concrete output of a cleaner on a sample text is computed in the model; the properties are proved for all inputs instead, and the examples of the source's comments ("S U M M A R Y", "P y t h o n") are covered by the lemmas about every letter-spaced word of their kind.
