# EviLinEd line-buffer engine in Dafny

EviLinEd is a small DOS-era line editor. It keeps a buffer of at most 1200
lines, each shorter than 256 characters. It has a line-command REPL (list,
insert, delete, replace, search, write) and a full-screen mode with a cursor.
This project models that engine and proves what it does:

- the line store and its slot operations: make_room, close_gap, free_line,
  ensure_line_exists;
- the ranged commands D, I, R and S (cmd_delete, cmd_insert, cmd_replace,
  cmd_search);
- the range grammar and its defaults (parse_range, to_range_defaults);
- the pattern grammar (parse_between and the spec parsing of R and S);
- the matchers (strstr, strcasestr_pos) and the bounded find/replace of one
  line (replace_in_line);
- the four cursor edits of full-screen mode (insert_char, delete_char,
  backspace_char, insert_newline);
- the argument handling in main for R, S and I.

The modules:

- `Base`: the capacities MAX_LINES = 1200 and LINE_LEN = 256, the pass cap
  of 1024 in replace_in_line, and `Option`.
- `Chars`: isspace, isdigit and tolower in the "C" locale, atoi (on
  unbounded integers) and chomp.
- `Matching`: strstr (`Find`), strcasestr_pos, replace_in_line as a function
  (`ReplaceResult`) and as a loop (`ReplaceInLine`).
- `Patterns`: parse_between and the spec parsers of cmd_replace and
  cmd_search.
- `Ranges`: parse_range and to_range_defaults.
- `Store`: the line store as a value (`seq<string>`) and what D and I make
  of it.
- `CursorModel`: the full-screen edits on a value that holds the lines and
  the cursor.
- `Commands`: main's handling of the arguments of R, S and I (D hands its
  argument straight to parse_range).
- `Editing`: class `Editor`. It holds the program's global state in place:
  - `lines`, an `array<string>` of 1200 slots;
  - `lineCount`;
  - the cursor;
  - `lastA` and `lastB`, the last range a command used (last_a and last_b).

  Every method of `Editor` performs one C routine on the array. Its contract
  gives the new contents as the matching function of `Store`, `Matching` or
  `CursorModel`.
- `Scenarios`: worked R and S examples, computed on the model.

A C string is the sequence of its characters before the terminator. A line
slot freed by free_line (set to NULL in C) holds `""`. Slots at or above
line_count keep stale copies, as they do in C; no operation reads them as
lines.

## Model

| member | source | states |
|---|---|---|
| Chars.Atoi | EVILINED.C:330-338 | atoi: with no digit after the blanks and an optional sign the result is 0, and a negative result needs a leading '-' |
| Chars.AtoiOfDecimal | EVILINED.C:330-338 | atoi reads back any rendered natural number, whatever non-digit text follows it |
| Chars.AtoiOfNegative | EVILINED.C:330-338 | atoi reads a minus sign followed by a rendered number as its negation |
| Chars.SkipSpace | EVILINED.C:623-626 | the isspace walk stops at the first non-blank, or at the end, and skips only blanks |
| Chars.Chomp | EVILINED.C:110-123 | chomp only shortens the string: the result is a prefix of the input |
| Chars.ChompDrops | EVILINED.C:110-123 | chomp removes exactly one of "", "\n", "\r", "\r\n", "\r\r" from the end, and keeps a string that does not end in '\n' or '\r' whole |
| Chars.ChompLineEnding | EVILINED.C:110-123 | a line read with no ending, "\n", "\r" or "\r\n" comes back without that ending |
| Matching.Find | EVILINED.C:259 | strstr returns a position where the pattern occurs |
| Matching.FindLeftmost | EVILINED.C:259-264 | strstr returns the leftmost occurrence, and returns nothing only when there is no occurrence at all |
| Matching.CaseAgree | EVILINED.C:140-149 | the inner loop of strcasestr_pos runs to the needle's end exactly when every remaining needle character equals the haystack's ignoring case |
| Matching.CaseScan | EVILINED.C:138-157 | the outer loop of strcasestr_pos returns the first position from i where the needle matches ignoring case, or -1 when none does |
| Matching.StrCaseStrPos | EVILINED.C:127-158 | strcasestr_pos: an empty needle is found at 0; otherwise the first case-insensitive match, and -1 exactly when there is none |
| Matching.StrCaseStrPosIsFoldedFind | EVILINED.C:127-158 | for every needle, the empty one included, strcasestr_pos equals strstr on the lower-cased strings |
| Matching.Step | EVILINED.C:259-289 | one pass of replace_in_line: with no occurrence of the old text there is no pass, and a rewritten line stays below LINE_LEN - 1 characters |
| Matching.Rewrite | EVILINED.C:257-302 | the replace loop makes at most limit replacements, at most one without g, and leaves the line alone when it makes none |
| Matching.GlobalStopsOnlyWhenStuck | EVILINED.C:257-302 | a global replace loop that stops before its limit leaves a line on which no further splice applies: no occurrence is left or the length guard refuses it |
| Matching.GlobalReplaceExhausts | EVILINED.C:244-305 | replace_in_line with g and a non-empty old text either makes 1024 replacements or leaves no occurrence that the length guard would let it replace |
| Matching.ReplaceResult | EVILINED.C:244-305 | replace_in_line makes no replacement for an empty old text, at most 1024 replacements, at most one without g, and keeps a line shorter than LINE_LEN |
| Matching.ReplaceInLine | EVILINED.C:244-305 | the imperative replace_in_line returns the line and the count that ReplaceResult defines |
| Matching.ReplaceOnceLeftmost | EVILINED.C:244-305 | without g, exactly the leftmost occurrence is replaced when the result fits; otherwise nothing changes |
| Matching.ReplaceAbsent | EVILINED.C:259-264 | without an occurrence the line and the count 0 are returned |
| Matching.RestartGrows | EVILINED.C:257-302 | each pass searches from the start of the rewritten line, so a global a -> aa grows a run of a's until the length guard stops it at 254 characters |
| Matching.RestartGrowsFromOne | EVILINED.C:257-302 | replacing a with aa globally on the line "a" makes 253 replacements |
| Patterns.ScanBetween | EVILINED.C:384-402 | the copy loop of parse_between ends just past a delimiter within the string, or fails; the text it keeps has no delimiter and fits outsz with its terminator |
| Patterns.ParseBetween | EVILINED.C:375-403 | parse_between returns a position past the opening and closing delimiters, and a text without the delimiter that fits outsz with its terminator |
| Patterns.ScanBetweenSpec | EVILINED.C:375-403 | the copy loop succeeds exactly when the delimiter occurs again; the result stops at its first occurrence, with the text truncated to outsz - 1 characters |
| Patterns.ParseBetweenSpec | EVILINED.C:375-403 | parse_between succeeds exactly when p opens with delim and delim occurs again; it returns the text in between (truncated to outsz - 1) and the position after the first closing delimiter |
| Patterns.ParseBetweenRoundTrip | EVILINED.C:375-403 | delimiting a text that is free of the delimiter and parsing it gives back the text and the position of the rest |
| Patterns.GlobalFlag | EVILINED.C:649-657 | the g flag is set only when a g or G follows in the spec, never when only blanks follow, and always when g or G comes first |
| Patterns.ParseNewAndFlag | EVILINED.C:636-657 | the second parse_between of cmd_replace and the g flag test after it: on success the old text is kept, and the new text has no '/' and is shorter than LINE_LEN |
| Patterns.NewAndFlagRoundTrip | EVILINED.C:636-657 | a '/'-delimited slash-free new text followed by the flag is read back into that text and that flag |
| Patterns.ParseReplaceSpec | EVILINED.C:622-657 | the spec parsing of cmd_replace as written, where the second parse_between starts after the first closing '/'; a parsed old or new text has no '/' and is shorter than LINE_LEN |
| Patterns.DocumentedReplaceSyntaxRejected | EVILINED.C:622-657 | as written, every /old/new/ and /old/new/g with slash-free texts is a syntax error |
| Patterns.SecondSegmentRejected | EVILINED.C:636-647 | after the first segment the second parse_between fails on new + "/" + flag |
| Patterns.DoubledSlashAccepted | EVILINED.C:622-657 | as written, /old//new/[g] is parsed into old, new and the flag |
| Patterns.ParseReplaceSpecShared | EVILINED.C:622-657 | the corrected parser, where the closing '/' of the old text also opens the new text; a parsed old or new text has no '/' and is shorter than LINE_LEN |
| Patterns.SharedDelimiterRoundTrip | EVILINED.C:622-657 | the corrected parser reads /old/new/[g] back into old, new and the flag |
| Patterns.ParseSearchSpec | EVILINED.C:681-711 | the spec of cmd_search fails exactly when it opens with '/' and has no closing '/'; a result is shorter than LINE_LEN |
| Patterns.SearchSlashText | EVILINED.C:681-695 | the form /text/, after any blanks and with anything after the closing '/', gives the slash-free text between the slashes |
| Patterns.BareSearchText | EVILINED.C:696-711 | a spec that does not start with '/' is the literal text after the blanks |
| Ranges.ToRangeDefaults | EVILINED.C:160-178 | the start becomes at least 1; in a non-empty store start <= end and start <= count; an in-range pair is kept; an end beyond count can only be the old start, after the swap |
| Ranges.DefaultsCanExceedCount | EVILINED.C:160-178 | on three lines the range 5,5 becomes 3,5 |
| Ranges.ParseRange | EVILINED.C:309-373 | parse_range fails exactly when the first non-blank is neither ',' nor a digit; a start is at least 1 and an end is at least 1 or the count |
| Ranges.ParseRangeBlank | EVILINED.C:315-325 | blank text selects 1..count |
| Ranges.ParseRangeLeadingComma | EVILINED.C:327-334 | ",Y" selects 1..Y, and Y = 0 means count |
| Ranges.ParseRangeSingle | EVILINED.C:336-370 | "X" selects X..X, and X = 0 means 1 for the start and count for the end |
| Ranges.ParseRangeOpenEnd | EVILINED.C:336-370 | "X," selects X..count |
| Ranges.ParseRangePair | EVILINED.C:336-370 | "X,Y" reads both numbers back |
| Ranges.ParseRangeRejectsSign | EVILINED.C:309-373 | a leading '-' is refused |
| Store.Grow | EVILINED.C:1062-1078 | ensure_line_exists appends empty lines until index idx exists or the store is full, keeps the old lines and keeps the store bounded |
| Store.DeleteBounds | EVILINED.C:505-515 | in a non-empty store the clamped range of cmd_delete satisfies 1 <= lo <= hi <= count |
| Store.DeleteSpan | EVILINED.C:500-531 | cmd_delete changes nothing in an empty store; otherwise it removes exactly the lines lo..hi and keeps the rest in order |
| Store.DeleteSpanBounded | EVILINED.C:500-531 | deleting keeps the store invariant |
| Store.DeleteWithoutArgumentClears | EVILINED.C:1651-1661 | D with no argument reaches parse_range("") and removes every line |
| Store.DeleteBeyondEndRemovesLast | EVILINED.C:500-531 | on a non-empty store, D n with n > count removes the last line |
| Store.InsertPosition | EVILINED.C:538-541 | cmd_insert's line is n when 1 <= n <= count + 1, else count + 1 |
| Store.UntilDot | EVILINED.C:546-560 | the accepted lines are the chomped input lines before the first one that is exactly "."; none of them is "." |
| Store.Taken | EVILINED.C:562-566 | the lines that go in are a prefix of the accepted lines, and the store never exceeds MAX_LINES |
| Store.TakenFills | EVILINED.C:562-566 | all accepted lines go in while they fit; otherwise exactly the free slots are filled |
| Store.InsertLines | EVILINED.C:533-581 | cmd_insert adds exactly the taken lines, before line n |
| Store.InsertThenDelete | EVILINED.C:500-581 | deleting the span an insert just added restores the store |
| Store.InsertBeyondEndAppends | EVILINED.C:538-541 | inserting beyond the end appends |
| Store.InsertScenario | EVILINED.C:533-581 | I 2 on one, two with the input "inserted", "." gives one, inserted, two |
| CursorModel.InsertChar | EVILINED.C:1080-1114 | insert_char keeps the cursor row, makes the row exist and stays within capacity |
| CursorModel.InsertCharFullLine | EVILINED.C:1087-1099 | on a line of LINE_LEN - 1 characters the character is refused: the line is made to exist, the column is clamped to its end and nothing else changes |
| CursorModel.InsertCharPlaces | EVILINED.C:1087-1113 | on a shorter line c lands at the clamped column between the old line's two parts, every other line is kept, and the cursor steps past c |
| CursorModel.DeleteChar | EVILINED.C:1116-1157 | delete_char never moves the cursor and does nothing beyond the last line |
| CursorModel.Backspace | EVILINED.C:1159-1173 | backspace_char inside a line steps one column left |
| CursorModel.InsertNewline | EVILINED.C:1175-1213 | insert_newline keeps the store within capacity; NewlineFull and NewlineSplitsGrown give its value on every buffer |
| CursorModel.NewlineFull | EVILINED.C:1182-1194 | on a full store the split is refused: the line is made to exist, the column is clamped to its end and nothing else changes |
| CursorModel.NewlineSplitsGrown | EVILINED.C:1182-1213 | with room in the store the line made to exist is split at the clamped column: the first half is the characters before it, the halves concatenate to the line, the other lines are kept and the cursor goes to the start of the second half |
| CursorModel.EditsKeepWellFormed | EVILINED.C:1080-1213 | all four edits keep the full-screen invariant: a bounded, non-empty store with the cursor on a line and at most one past its end |
| CursorModel.InsertCharThenBackspace | EVILINED.C:1080-1173 | typing a character and then backspacing restores the buffer when the line has room |
| CursorModel.NewlineSplits | EVILINED.C:1175-1213 | Enter splits the cursor's line into two halves that concatenate to it, and puts the cursor at the start of the second half, leaving the other lines alone |
| CursorModel.NewlineThenBackspace | EVILINED.C:1159-1213 | Enter followed by backspace is the identity |
| CursorModel.JoinRule | EVILINED.C:1116-1157 | at or past the end of a line with a successor, delete joins the two exactly when the joined line stays below LINE_LEN; otherwise nothing changes |
| CursorModel.BackspaceAtColumnZero | EVILINED.C:1159-1173 | at column 0 below the first line the cursor goes to the end of the previous line, and the lines stay as they are when the join is refused |
| Commands.SplitAtSlash | EVILINED.C:1676-1722 | R and S split their argument at the first '/': no '/' at all, a refused range prefix, or a range and the spec from the '/' on |
| Commands.SplitRoundTrip | EVILINED.C:1676-1722 | a slash-free range text followed by a spec splits back into the parsed range and that spec |
| Commands.EmptyPrefixCoversAll | EVILINED.C:1676-1722 | without a range prefix, R and S work on every line |
| Commands.ReplaceArgs | EVILINED.C:1676-1722 | R without a '/' is an error; otherwise cmd_replace gets the suffix of the argument from its first '/', and the text before it holds no '/' |
| Commands.ReplaceArgsOfRange | EVILINED.C:1676-1722 | R with a slash-free range text before a spec gives -1, -1 for an empty range text, an error when parse_range refuses it, and otherwise the parsed pair with the whole spec |
| Commands.SearchArgs | EVILINED.C:1744-1790 | S without a '/' searches every line for the whole argument, and fails only on a refused range prefix |
| Commands.InsertArgWithoutDigitsAppends | EVILINED.C:1644-1649 | I whose argument has no digit after its blanks and optional sign, a bare I among them, inserts after the last line |
| Commands.InsertArgNegativeAppends | EVILINED.C:1644-1649 | I -n inserts after the last line as well |
| Commands.InsertArgNumber | EVILINED.C:1644-1649 | I n with a plain decimal n addresses line n |
| Editing.ReplaceLines | EVILINED.C:659-667 | the loop of cmd_replace rewrites only lines in lo..hi, keeps the line count and the line bound |
| Editing.ReplacedAt | EVILINED.C:661-667 | after the cmd_replace loop has run over lo..j, a slot below the count in that range holds the line replace_in_line makes of it and every other slot is as before |
| Editing.ReplacedIsReplaceLines | EVILINED.C:659-667 | the slot-by-slot loop state is ReplaceLines on the lines below the count and leaves the other slots alone |
| Editing.MadeOn | EVILINED.C:661-667 | a line contributes at most 1024 replacements, at most one without g, and none for an empty old text |
| Editing.ReplaceTotal | EVILINED.C:661-669 | the printed total sums the per-line counts: 0 for an empty range, and it includes the count of the last line in range |
| Editing.ReplaceTotalBounds | EVILINED.C:661-669 | the printed count is at most 1024 per line in range, at most one per line without g, and 0 for an empty old text |
| Editing.Matches | EVILINED.C:715-725 | the search loop reports at most one hit per line of the range |
| Editing.MatchesSound | EVILINED.C:715-725 | every hit is an existing line of the range that contains the text, ignoring case |
| Editing.MatchesComplete | EVILINED.C:715-725 | every existing line of the range that contains the text, ignoring case, is a hit |
| Editing.MatchesIncreasing | EVILINED.C:715-725 | hits come in increasing line order |
| Editing.Editor.Contents | EVILINED.C:49-55 | the buffer is the first line_count slots, each shorter than LINE_LEN |
| Editing.Editor.constructor | EVILINED.C:49-55 | the program starts with no lines, the cursor at 0,0, last_a = 1 and last_b = 0 |
| Editing.Editor.MakeRoom | EVILINED.C:206-228 | make_room succeeds exactly when n <= 0 or the lines fit in MAX_LINES; on success n slots open at pos and the lines keep their order around them; on failure nothing changes |
| Editing.Editor.ShiftUp | EVILINED.C:220-223 | the copy loop of make_room moves slots pos..line_count-1 up by n, top down, and leaves every other slot as it was |
| Editing.Editor.CloseGap | EVILINED.C:230-240 | close_gap removes slots start..start+n-1 from the lines and keeps the rest in order |
| Editing.Editor.FreeLine | EVILINED.C:195-202 | free_line clears the slot when it is below line_count and changes nothing else |
| Editing.Editor.EnsureLineExists | EVILINED.C:1062-1078 | ensure_line_exists turns the lines into Grow of them and touches no slot outside the new lines |
| Editing.Editor.CmdDelete | EVILINED.C:500-531 | cmd_delete leaves DeleteSpan of the old lines; it sets last_a to the range start and last_b to that line or the last line, and leaves both alone on an empty store |
| Editing.Editor.RemoveLines | EVILINED.C:522-528 | freeing lines lo..hi and closing their gap leaves the lines outside lo..hi, in order |
| Editing.Editor.FreeRange | EVILINED.C:522-525 | the free_line loop over lo..hi empties exactly those slots and keeps every other slot and every line outside that range |
| Editing.Editor.PutLine | EVILINED.C:562-568 | make_room(pos, 1) and the store of the line: the line goes in at pos exactly when the store has room, else nothing changes |
| Editing.Editor.CmdInsert | EVILINED.C:533-581 | cmd_insert leaves InsertLines of the old lines; last_a is the clamped position and last_b the last line that went in |
| Editing.Editor.InsertRun | EVILINED.C:546-577 | the read loop puts the taken input lines in at slot p, in order, and ends with pos past the last of them |
| Editing.Editor.ReplaceLine | EVILINED.C:663-666 | one pass of the loop rewrites line i with replace_in_line when it exists and returns its count |
| Editing.Editor.ReplaceRange | EVILINED.C:659-671 | the loop leaves ReplaceLines of the old lines over the normalised range, returns ReplaceTotal and records the range in last_a and last_b |
| Editing.Editor.ReplaceLoop | EVILINED.C:661-667 | the slots after the loop are those Replaced defines for lo..hi, and the total is ReplaceTotal of the old lines |
| Editing.Editor.ReplaceTurn | EVILINED.C:663-666 | one turn of the cmd_replace loop extends the slot state Replaced to line i and adds line i's count to the total, so the total stays ReplaceTotal of the old lines |
| Editing.Editor.CmdReplaceAsWritten | EVILINED.C:614-672 | cmd_replace as written: a spec ParseReplaceSpec refuses changes nothing; otherwise the lines, the count and last_a, last_b are those of ReplaceRange |
| Editing.Editor.CmdReplace | EVILINED.C:614-672 | a spec that does not parse (with the corrected parser) changes nothing; otherwise the lines, the count and last_a, last_b are those of ReplaceRange |
| Editing.Editor.SearchRange | EVILINED.C:713-725 | the hits are Matches over the normalised range and nothing changes |
| Editing.Editor.CmdSearch | EVILINED.C:674-730 | a '/' without its closing '/' changes nothing; otherwise it returns the hits for the parsed text and records the range |
| Editing.Editor.InsertChar | EVILINED.C:1080-1114 | insert_char on the slots gives the CursorModel.InsertChar of the old buffer and cursor |
| Editing.Editor.DeleteChar | EVILINED.C:1116-1157 | delete_char on the slots gives the CursorModel.DeleteChar of the old buffer and cursor |
| Editing.Editor.JoinLines | EVILINED.C:1133-1150 | the join puts the next line's text after line row and removes that next line |
| Editing.Editor.BackspaceChar | EVILINED.C:1159-1173 | backspace_char on the slots gives the CursorModel.Backspace of the old buffer and cursor |
| Editing.Editor.SplitLine | EVILINED.C:1196-1210 | the split replaces line row by its halves at col |
| Editing.Editor.InsertNewline | EVILINED.C:1175-1213 | insert_newline on the slots gives the CursorModel.InsertNewline of the old buffer and cursor |
| Scenarios.ReplaceSpecScenario | EVILINED.C:622-657 | the spec /a/X/g is refused as written and read as a global a -> X by the corrected parser |
| Scenarios.ReplaceScenario | EVILINED.C:614-672 | R 1,3 with a global a -> X turns alpha, beta, gamma into XlphX, betX, gXmmX |
| Scenarios.ReplaceCountScenario | EVILINED.C:614-672 | that R reports 5 replacements |
| Scenarios.SearchSpecScenario | EVILINED.C:681-695 | the spec /zz/ is the text zz |
| Scenarios.SearchWithoutMatch | EVILINED.C:715-727 | a search over lines none of which contains the text reports no hit |

Three consequences of the code worth stating:

- A global a -> X over lines 1..3 of alpha, beta, gamma (`R 1,3 /a//X/g` as
  written, `/a/X/g` with the corrected parser) makes 2 + 1 + 2 = 5
  replacements (`Scenarios.ReplaceCountScenario`).
- Each pass of replace_in_line searches again from the start of the
  rewritten line, not after the text just put in (`Matching.RestartGrows`).
- The end of a normalised range can exceed the line count
  (`Ranges.DefaultsCanExceedCount`); the loops that use it check
  `i <= line_count`.

## Left out

- load_file, write_file, cmd_list, cmd_edit, banner and the status line: file and console I/O.
- cmd_fullscreen's key loop, the screen and keyboard routines, and the video-adapter detection: hardware I/O. Only the four edits the loop calls are modelled.
- get_file_type, the time and date display, and the other REPL commands (L, E, O, W, V, P, H, Q): outside the line-buffer engine.
- Printing: the counts and hits that cmd_replace and cmd_search print are returned instead. The numbered prompts of cmd_insert are not modelled.
- Reading input: cmd_insert takes its input as the sequence of strings that successive fgets calls return. Each is shorter than LINE_LEN, and the end of the sequence is end-of-file. The splitting of longer input lines by fgets is not modelled.
- Allocation failure: malloc and xstrdup always succeed here, so the "alloc failed" break of cmd_insert and the malloc check of replace_in_line are not modelled.
- Chars.Atoi: integers are unbounded, so atoi's overflow on numbers beyond the C int range is not modelled.
- A NULL line slot is modelled as the empty string. The `lines[i - 1]` tests of cmd_replace and cmd_search therefore always pass for lines below the count, which is what they do for every line the store produces.
- Commands.SplitAtSlash: the copy of the argument into a 512-byte buffer by strncpy is not modelled. A REPL line is already shorter than 512 characters, so the argument always fits.
- Ranges.ToRangeDefaults: the in-place updates of *a and *b in to_range_defaults are modelled as a function that returns the new pair.
- Editing.Editor.CmdReplace: it uses the corrected spec parser (see Findings). Editing.Editor.CmdReplaceAsWritten is the command with the parser as written, and Patterns proves how that parser behaves.
- Editing.ReplaceTotal: the count is an unbounded integer, while cmd_replace adds the per-line counts into an int `total` and prints it with %d. Under a 16-bit int the total wraps past 32767. For example, R /a//a/g on 32 lines "a" makes 1024 replacements per line, a total of 32768, which C prints as -32768. The model returns 32768.
- Editing.Editor.ReplaceLoop, Editing.Editor.SearchRange: the loop counter is an unbounded integer. Under a 16-bit int, the C loops `for (i = a; i <= b; i++)` of cmd_list, cmd_replace and cmd_search never end when b is 32767, because i wraps around after it. For example, R 32767 /a//b/ on a non-empty store makes parse_range give (32767, 32767) and to_range_defaults give (count, 32767). The model's loops stop after b, so they do not capture that non-termination.
- The NUL character: a C string ends at its first '\0', while here '\0' is an ordinary character. Chomp, ParseRange, ParseBetween, ParseSearchSpec, StrCaseStrPos, Find, ReplaceResult and InsertChar therefore also accept text that contains '\0', which no C string can.
- Editing.Editor.BackspaceChar: at column 0 below the first line it requires the previous line to exist. The C routine calls strlen on that slot, which the full-screen loop keeps valid.

## Findings

| source | as written | input that shows it | evidently intended | confidence | as-written member | corrected member |
|---|---|---|---|---|---|---|
| EVILINED.C:628-647 | the second parse_between starts after the closing '/' of the first one, so it needs that '/' again to open the new text | R 1,3 /a/X/g is rejected with "! syntax: R a,b /old/new/[g]"; only /a//X/g is accepted | the '/' that closes the old text also opens the new one, as the usage message /old/new/[g] says | not executed | Patterns.ParseReplaceSpec, Patterns.DocumentedReplaceSyntaxRejected, Patterns.DoubledSlashAccepted, Editing.Editor.CmdReplaceAsWritten | Patterns.ParseReplaceSpecShared, Patterns.SharedDelimiterRoundTrip |
