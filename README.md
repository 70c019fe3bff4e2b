# jrep matching engine in Dafny

jrep is a small grep. A pattern is split on `|` into alternatives. Each
alternative is compiled into a linear chain of states: a literal character,
a character range `[x-y]`, the wildcard `.`, or the end-of-line anchor `$`.
A state may also carry the flags "optional" (`?`, `*`) and "repeatable"
(`*`, `+`). `^` anchors the whole alternative to the start of the line.

Each input line is matched by a single forward walk over the line, tried
again at later offsets chosen by a jump heuristic. A line is selected when
some alternative's result, flipped by `-v`, is true. The front end counts
selected lines for `-c`. It keeps the text of the last hit for `-o`. It
prints one record per selected line. It ends with an exit status.

The project models three pieces:

- The engine of `src/regex.c`: `copy_state`, `parse`, `does_char_match`,
  `match_start` and `does_match`.
  - `regex_spec.dfy` (module `RegexSpec`) holds the pure reference
    definitions and their lemmas: `ParseStep`/`ParseFrom`/`Compile`,
    `CharMatches`, `WalkFrom`/`Walk` (one `match_start` attempt),
    `SearchFrom`/`Search` (the retry loop of `does_match`) and `Capture`
    (the `-o` buffer).
  - `regex.dfy` (module `Regex`) holds class `Pattern`, the `struct
    s_state` with its six parallel arrays and its `count`, `current` and
    `beg` fields. Its methods keep the source's loops and in-place array
    updates. Each one is proved against the reference definitions.
  - `regex_facts.dfy` (module `RegexFacts`) holds facts about the search:
    - when the jump heuristic is safe, and a search that tries every
      offset;
    - the sequence of attempts `does_match` makes;
    - a counterexample to the heuristic;
    - how plain literal patterns behave.
- The front end of `src/jrep.c`:
  - `jrep_spec.dfy` (module `JrepSpec`) covers the alternation split,
    compilation of every piece, line selection, the `-o` buffer, the
    printed records, the `-c` count and the exit status.
  - `jrep.dfy` (module `Jrep`) holds the loops of `main`, proved against
    those definitions.
- The older single-file version, root `jrep.c`, with its own `parse` and
  `does_match`:
  - `legacy_spec.dfy` (module `LegacySpec`) holds the reference
    definitions;
  - `legacy.dfy` (module `Legacy`, class `LegacyPattern`) holds the
    imperative model.

`cstrings.dfy` (module `CStrings`) models C strings. A string is a
`seq<char>` without its terminator, and `At(s, k)` reads `'\0'` at or past
the end.

Where jrep's documented behaviour and its code disagree, the model
follows the code:

- With `-o`, the printed text is the hit of the last alternative that
  matched, not the first (`JrepSpec.CaptureIsLast`).
- The exit status reflects the last line only (`JrepSpec.Status`, see
  Findings).
- `-v` flips each alternative before they are or-ed together
  (`JrepSpec.InverseOverlap`, see Findings).
- The legacy matcher never moves its start offset back after a partial
  match (`LegacySpec.LegacyNoRewind`).

## Model

| member | source | states |
|---|---|---|
| RegexSpec.RangeAt | src/regex.c:57-98 | a `[` item is accepted exactly when it is well formed (`x-y]`, `x` not `]`, none of them NUL, `x <= y`), and it then yields the range from `x` to `y` |
| RegexSpec.CharMatches | src/regex.c:164-183 | defines which characters a state accepts: its literal, any character of its range, any character but `'\n'` for `.`, and `'\n'` for `$` |
| RegexSpec.ParseFrom | src/regex.c:15-161 | defines the parse loop: one `ParseStep` per turn until the terminator, stopping at the first error |
| RegexSpec.Compile | src/regex.c:15-161 | defines `parse` from a fresh structure whose anchor flag is clear |
| RegexSpec.ParseStep | src/regex.c:20-158 | each accepted pattern character moves the parse index forward, and never past the terminator |
| RegexSpec.StepGrowth | src/regex.c:20-158 | per character: `^` adds no state; `?`/`*` change only the flags of the last state; `+` keeps the last state and appends a starred copy; any other accepted character appends exactly one state with both flags reset, whose test is the literal, the range, `.` or `$` the character stands for |
| RegexSpec.StepFails | src/regex.c:26-150 | the parse rejects a character exactly when it is `^` not at index 0, `$` not last, a quantifier with no state before it, a malformed `[`, a `]`, or a `\` followed by the terminator |
| RegexSpec.StepWellFormed | src/regex.c:20-158 | one parse step keeps every range ordered and `$` only as the final state |
| RegexSpec.ParseWellFormed | src/regex.c:15-161 | the rest of the parse keeps the compiled chain well formed |
| RegexSpec.CompileWellFormed | src/regex.c:15-161 | every compiled pattern has ordered ranges and `$` only last |
| RegexSpec.ParseAnchor | src/regex.c:26-33 | the anchor flag of a compiled pattern is set exactly when the pattern starts with `^`, or when it was already set |
| RegexSpec.ParseBound | src/regex.c:20-159 | the rest of the parse never removes a state and adds at most one state per remaining pattern character |
| RegexSpec.PlainPatternCompiles | src/regex.c:155-158 | a pattern with no special characters compiles to one mandatory literal state per character |
| RegexSpec.EscapeIsLiteral | src/regex.c:140-150 | `\c` compiles to the single literal `c`, which matches only `c` |
| RegexSpec.RangeCompiles | src/regex.c:57-98 | `[x-y]` compiles exactly when `x` is not `]` and `x <= y`, and then matches exactly the characters between `x` and `y` |
| RegexSpec.WalkFrom | src/regex.c:194-212 | defines the do-while loop of `match_start`: the jump update, the match, the kleene and optional steps and the loop condition |
| RegexSpec.WalkFromBounds | src/regex.c:194-211 | a walk in progress ends in a hit between the current position and the end of the line, or in a failure whose jump is 1 or the offset of a later character that state 0 accepts |
| RegexSpec.WalkBounds | src/regex.c:189-225 | one `match_start` attempt either succeeds with a length inside the line, or fails with a jump that is 1 or the offset of a later character that state 0 accepts |
| RegexSpec.Walk | src/regex.c:189-225 | the length of a successful attempt never exceeds the line |
| RegexSpec.SearchFrom | src/regex.c:232-240 | defines the retry loop of `does_match` from a given offset |
| RegexSpec.SearchFromStep | src/regex.c:232-240 | proof helper, unfolds one turn of the retry loop: a success at offset `n` is the hit; a failure with jump `j` stops for an anchored pattern or at the terminator, and otherwise retries at `n + j` |
| RegexSpec.SearchFromSound | src/regex.c:229-242 | a reported hit starts at or after the first offset tried (exactly there for an anchored pattern), ends inside the line, and is a successful attempt from its start |
| RegexSpec.Search | src/regex.c:229-242 | a hit starts inside the line and ends no later than its end |
| RegexSpec.AnchoredSearch | src/regex.c:237 | an anchored pattern matches a line exactly when the attempt at offset 0 succeeds, and its hit then starts at 0 |
| RegexSpec.CaptureShift | src/regex.c:214-221 | the text captured by an attempt on the suffix at offset `n` equals the text of the hit at `n` in the whole line |
| RegexSpec.Capture | src/regex.c:214-221 | the `-o` buffer holds the matched text followed by one `'\n'`, added only when that text does not already end in one |
| Regex.Pattern.constructor | src/jrep.h:19-31 | a fresh `s_state` has six arrays of `MAX_EXPR` slots, no states and the anchor flag clear |
| Regex.Pattern.CopyState | src/regex.c:3-12 | copying slot `i` into slot `i + 1` grows the chain by one; slot `i + 1` becomes a copy of slot `i`; everything else is unchanged |
| Regex.Pattern.Parse | src/regex.c:15-161 | `parse` returns 0 exactly when the reference parse accepts the pattern, and the arrays then hold the compiled chain; otherwise it returns -1 |
| Regex.Pattern.ParseChar | src/regex.c:20-158 | one turn of the parse loop fails exactly when the reference step fails, and otherwise leaves the arrays holding the reference step's result |
| Regex.Pattern.ParseAtom | src/regex.c:36-158 | the `$`, `.`, `\` and plain-character cases agree with the reference step |
| Regex.Pattern.Push | src/regex.c:42-43 | finishing a state appends the current slot to the chain and advances `count` and `current` |
| Regex.Pattern.Quantify | src/regex.c:47-136 | `?` marks the last state optional, `*` marks it optional and repeatable, and `+` is handled as in `Plus` |
| Regex.Pattern.Plus | src/regex.c:125-136 | `+` keeps the last state mandatory and appends a copy of it that is optional and repeatable |
| Regex.Pattern.SetOptional | src/regex.c:53 | sets the optional flag of one state and changes nothing else |
| Regex.Pattern.SetKleene | src/regex.c:120-121 | sets the repeatable flag of one state and changes nothing else |
| Regex.Pattern.ParseRange | src/regex.c:57-98 | the `[` case fails exactly when the reference rejects the item, and otherwise appends the range state and moves past the `]` |
| Regex.Pattern.DoesCharMatch | src/regex.c:164-183 | reports whether state `i` accepts the character, as `CharMatches` defines it |
| Regex.Pattern.MatchStart | src/regex.c:189-225 | returns 0 exactly when the attempt succeeds; on failure it returns the attempt's jump and leaves the buffer alone; on success with `-o` the buffer holds the captured text |
| Regex.Pattern.DoesMatch | src/regex.c:229-242 | the result is true exactly when the reference search finds a hit; with `-o` and a hit the buffer holds that hit's text, and otherwise it is unchanged |
| RegexFacts.SearchEveryComplete | src/regex.c:229-242 | a search that tries every offset succeeds exactly when some offset starts a successful attempt, and it reports the first such offset |
| RegexFacts.WalkFromSkips | src/regex.c:195-198 | with a mandatory first state, every character a failed attempt jumps over is rejected by that state |
| RegexFacts.MandatoryMismatch | src/regex.c:199-211 | an attempt whose mandatory first state rejects the first character fails with a jump of one |
| RegexFacts.SkipEvery | src/regex.c:229-242 | offsets the mandatory first state rejects can be passed over without changing the result of the every-offset search |
| RegexFacts.JumpSafe | src/regex.c:195-198 | when the first state is mandatory, the heuristic search finds exactly what the every-offset search finds |
| RegexFacts.Attempts | src/regex.c:229-242 | every offset the retry loop tries lies between the first offset and the end of the line |
| RegexFacts.AttemptsShape | src/regex.c:229-242 | the loop tries a strictly increasing list of offsets; every attempt before the last fails, and its jump gives the next offset; the result is the last attempt's hit, if it succeeded |
| RegexFacts.AttemptsOrdered | src/regex.c:232-240 | the offsets tried strictly increase |
| RegexFacts.AttemptsFail | src/regex.c:232-240 | every attempt but the last fails, and each jump leads to the next offset |
| RegexFacts.AttemptsLast | src/regex.c:232-240 | the search's result is the last attempt's success, or none |
| RegexFacts.MissedMatch | src/regex.c:195-198 | pattern `a?b.c` on line `bbac\n`: `does_match` reports no match, although the attempt at offset 1 succeeds |
| RegexFacts.OptionalFirstCompiles | src/regex.c:48-55 | `a?b.c` compiles to an optional `a`, then `b`, any character, and `c` |
| RegexFacts.OptionalFirstWalks | src/regex.c:189-225 | on `bbac\n` the attempt at 0 fails with a jump of 2, the attempt at 1 succeeds, and the attempts at 2, 3 and 4 fail |
| RegexFacts.OptionalAtEnd | src/regex.c:212-213 | a trailing optional state counts as matched when the line's newline is reached, but not at the terminator |
| RegexFacts.WalkFromLiterals | src/regex.c:199-211 | on a chain of literals a walk succeeds exactly when the rest of the literal text occurs at the position reached |
| RegexFacts.LiteralAttempt | src/regex.c:189-225 | a plain pattern's attempt at offset `k` succeeds exactly when its text occurs in the line at `k` |
| RegexFacts.LiteralSearch | src/regex.c:229-242 | a plain pattern matches a line exactly when its text occurs somewhere in the line |
| JrepSpec.Split | src/jrep.c:110-124 | splitting always yields at least one alternative |
| JrepSpec.SplitCount | src/jrep.c:99-101 | there is one alternative more than there are `\|` characters |
| JrepSpec.SplitNoBar | src/jrep.c:113-122 | no alternative contains `\|` |
| JrepSpec.SplitJoin | src/jrep.c:110-124 | joining the alternatives with `\|` gives back the pattern |
| JrepSpec.JoinSplit | src/jrep.c:110-124 | splitting a `\|`-join of pieces without `\|` gives back those pieces |
| JrepSpec.SplitParts | src/jrep.c:110-124 | each alternative is a C string no longer than the pattern |
| JrepSpec.CompiledCount | src/jrep.c:127-131 | when every piece compiles there are `orcount + 1` compiled alternatives, one per `\|` plus one |
| JrepSpec.LineMatches | src/jrep.c:136-140 | defines line selection: some alternative's result, flipped by `-v`, is true |
| JrepSpec.CaptureUpTo | src/jrep.c:137-146 | defines the `-o` buffer after the first `k` alternatives have been tried |
| JrepSpec.CaptureNone | src/jrep.c:137-140 | when no alternative finds a hit, the `-o` buffer keeps its previous text |
| JrepSpec.CaptureIsLast | src/jrep.c:137-146 | the `-o` buffer holds the text of the last alternative that found a hit |
| JrepSpec.AlternationIsOr | src/jrep.c:136-140 | without `-v`, a line matches `A\|B` exactly when it matches `A` or matches `B` |
| JrepSpec.InverseOverlap | src/jrep.c:138 | a line that one alternative finds and another misses is selected both with and without `-v` |
| JrepSpec.InverseComplement | src/jrep.c:138 | follows by unfolding the definitions: the alternation flipped as a whole selects, under `-v`, exactly the lines it does not select without `-v`, and without `-v` it agrees with the code |
| JrepSpec.SingleInverse | src/jrep.c:138 | with a single alternative the code's `-v` and the whole-alternation flip agree |
| JrepSpec.Report | src/jrep.c:141-148 | defines the printed records, one per selected line unless `-c` |
| JrepSpec.Count | src/jrep.c:141-142 | defines the `-c` count: the number of selected lines |
| JrepSpec.Status | src/jrep.c:163-164 | defines the exit status as written: 0 when the last line is selected, 1 otherwise and for empty input |
| JrepSpec.ReportCount | src/jrep.c:141-153 | under `-c` no record is printed; otherwise the number of records equals the count of selected lines |
| JrepSpec.ReportShowsLines | src/jrep.c:141-148 | without `-o`, or with `-v`, each record shows a selected input line in full, and with `-n` it carries that line's number |
| JrepSpec.ReportStep | src/jrep.c:134-151 | proof helper, unfolds one line: the records and the count of a run are the first line's share followed by the rest |
| JrepSpec.StatusCount | src/jrep.c:163-164 | exit status 0 implies at least one line was selected |
| JrepSpec.CountLast | src/jrep.c:141-142 | a selected last line is counted |
| JrepSpec.CountPositive | src/jrep.c:141-142 | the count is positive exactly when some line is selected |
| JrepSpec.StatusLastOnly | src/jrep.c:163-164 | when some line is selected but the last is not, the exit status is 1, the count is positive, and the documented status is 0 |
| JrepSpec.StatusAny | src/jrep.c:163-164 | the documented status is 0 exactly when some line is selected, and 1 otherwise |
| Jrep.CountBars | src/jrep.c:99-101 | the loop counts exactly the `\|` characters of the pattern |
| Jrep.SplitAlternatives | src/jrep.c:110-124 | the copying loop produces exactly the split of the pattern |
| Jrep.CompileAlternatives | src/jrep.c:127-131 | succeeds exactly when every alternative compiles, and then holds one compiled pattern per alternative, in order |
| Jrep.MatchLine | src/jrep.c:136-140 | the per-line loop selects the line exactly as the or of the flipped alternatives defines it, and leaves the `-o` buffer as `CaptureUpTo` defines it |
| Jrep.Advance | src/jrep.c:134-151 | proof helper for the loop invariant of `SelectLines`: one more line keeps the records and the count equal to the reference run |
| Jrep.SelectLines | src/jrep.c:134-151 | the line loop prints exactly the reference records and counts exactly the selected lines; its final flag is whether the last line was selected |
| Jrep.Run | src/jrep.c:98-164 | a pattern with an alternative that does not compile gives status 2 and no output; otherwise the records, the `-c` total and the status are the reference ones |
| LegacySpec.LegacyStep | jrep.c:38-129 | each accepted pattern character moves the parse index forward, and never past the terminator |
| LegacySpec.LegacyParse | jrep.c:32-133 | defines the legacy parse loop: one `LegacyStep` per turn until the terminator, stopping at the first error |
| LegacySpec.LegacyCompile | jrep.c:32-133 | defines the legacy `parse` from an empty chain |
| LegacySpec.LegacyStepWellFormed | jrep.c:38-129 | one legacy parse step keeps ranges ordered, `^` only first and `$` only last |
| LegacySpec.LegacyParseWellFormed | jrep.c:32-133 | the rest of the legacy parse keeps the chain well formed and no longer than the pattern |
| LegacySpec.LegacyCompileWellFormed | jrep.c:32-133 | every legacy compiled pattern is well formed and has at most one state per pattern character |
| LegacySpec.LegacyPlainCompiles | jrep.c:125-129 | from any index, characters that are not special become mandatory literal states, one each |
| LegacySpec.LegacyPlainCompile | jrep.c:125-129 | a pattern without special characters compiles to its own characters as literals |
| LegacySpec.LegacyNoQuantifiers | jrep.c:39-129 | the legacy parser has no `*`, `+` or `\`: they compile as literals |
| LegacySpec.LegacyOptionalAnchor | jrep.c:40-69 | `^?` compiles to an optional start-of-line state |
| LegacySpec.LegacyStepFails | jrep.c:40-115 | the legacy parse rejects a character exactly when it is `^` not first, `$` not last, `?` with no state before it, a malformed `[`, or `]` |
| LegacySpec.LegacyMove | jrep.c:141-210 | one turn of the legacy loop either stops or continues inside the line and moves closer to the end of the walk |
| LegacySpec.LegacyFrom | jrep.c:140-214 | defines the legacy do-while loop: `LegacyMove` turns until the terminator or the end of the chain |
| LegacySpec.LegacyMatch | jrep.c:135-215 | defines the legacy `does_match` from state 0 at offset 0 |
| LegacySpec.LegacyFromBounds | jrep.c:140-214 | when the legacy walk returns, its state index is at most the chain length, and a true result short of the chain's end is at a `$` state |
| LegacySpec.LegacyAnchorFails | jrep.c:142-145 | a start-of-line state reached past offset 0 makes the line fail |
| LegacySpec.LegacyEndLine | jrep.c:151-152 | a `$` state returns at once: true when at the newline after a partial match, or when `$` is the first state |
| LegacySpec.LegacyReset | jrep.c:167-170 | a mismatch on a mandatory literal or range sends the walk back to state 0 at the next character, with the partial-match flag cleared, or fails at the line's end |
| LegacySpec.LegacyNoRewind | jrep.c:135-215 | `aab` does not match `aaab\n`, because after a partial match the walk restarts at the next character rather than at the next start |
| Legacy.LegacyPattern.constructor | jrep.c:13-25 | a fresh legacy `s_state` has its arrays, no states and `current` at 0 |
| Legacy.LegacyPattern.Parse | jrep.c:32-133 | `parse` returns 0 exactly when the reference legacy parse accepts the pattern, and the arrays then hold its chain with `current` reset to 0; otherwise it returns -1 |
| Legacy.LegacyPattern.ParseChar | jrep.c:38-129 | one turn of the legacy parse loop fails exactly when the reference step fails, and otherwise holds the reference step's result |
| Legacy.LegacyPattern.Push | jrep.c:45-46 | finishing a state appends the current slot to the chain |
| Legacy.LegacyPattern.ParseRange | jrep.c:71-110 | the legacy `[` case fails exactly when the item is malformed, and otherwise appends the range state |
| Legacy.LegacyPattern.DoesMatch | jrep.c:135-215 | the legacy `does_match` returns the reference outcome, and leaves `current` where the reference walk stops |
| Legacy.LegacyPattern.Turn | jrep.c:141-211 | one turn of the legacy loop takes the reference move: it stops with the reference result, or continues at the reference state, offset and partial-match flag |

## Left out

- Input and output are not modelled: `getline`, `fopen`, `printf`
  formatting, option parsing, usage and version text, and the legacy
  `main`. Each line is a parameter. A printed line is a `Record` value.
- Allocation defects are not reproduced:
  - `char *regex[orcount]` at src/jrep.c:104 is one slot short;
  - the `malloc` sizes at src/jrep.c:112 and 121 are wrong;
  - the capture writes `buffer[n+1]` past `malloc(n+1)`, and leaves
    `buffer[n]` uninitialised when the text already ends in `'\n'`
    (src/regex.c:214-221).

  The model uses values, and the intended buffer: the matched text, plus
  `'\n'` unless it already ends in one.
- Regex.Pattern.MatchStart and Regex.Pattern.DoesMatch: with `-o`, a
  zero-length success reads `buffer[-1]`. Such a call is excluded by a
  precondition (`CaptureDefined`, and `Printable` in the front end).
- RegexSpec.RangeAt: an item `[x-` at the end of the pattern reads past
  the terminator in the source. The model rejects it as malformed.
- Regex.Pattern.Parse and Legacy.LegacyPattern.Parse require the pattern
  to fit `MAX_EXPR` (src/jrep.h:10, jrep.c:6), because the source does
  not check overflow of its fixed arrays.
- Regex.Pattern.DoesMatch requires at least one state. With no states
  `match_start` reads `type[0]`, a slot inside the arrays that was never
  written (src/regex.c:195, 199). An empty alternative (from `a||b` or an
  empty pattern) and a pattern that is only `^` both give no states. The
  front end's `Ready` rules them out, so Jrep.Run does not cover them.
- The matcher requires a non-empty line, as `getline` delivers it. An
  empty string makes `match_start` read past its terminator.
- The `beg` field is never initialised in src/jrep.c. The model starts it
  false.
- Characters are compared as unsigned code points. The source compares
  signed `char` and `int` range bounds, which differs for bytes above
  127.
- src/jrep.h has no `current` field, although src/regex.c uses one. The
  model adds it.
- src/regex.c:80 only prints a diagnostic, and that is not modelled.
- Legacy.LegacyPattern.DoesMatch:
  - It excludes the back-step of `.` to offset -1 (jrep.c:182-185),
    which is out-of-bounds in the source (`Undefined` outcome).
  - It requires a `getline` line, with `'\n'` only as the last character.
    On a line with an inner `'\n'` the legacy loop can repeat forever
    (pattern `.?a`, line `b\n\n`).
  - It requires at least one state (`count > 0`). An empty legacy pattern
    leaves the stack `struct s_state` (jrep.c:235) unwritten, and
    `does_match` then reads its uninitialised `type[0]` (jrep.c:141).
- Jrep.Run and the matchers take lines as C strings (`IsCString`), so a
  line that contains a NUL byte is not covered. `getline` delivers such
  lines, and the C matcher then sees only the text before the NUL.
- Jrep.Run and Jrep.SelectLines model the one input stream that
  src/jrep.c:66-78 opens: the named file, or standard input. The name
  printed with `-H` is a parameter.

## Findings

| source | as written | input that shows it | evidently intended | confidence | as-written member | corrected member |
|---|---|---|---|---|---|---|
| src/regex.c:195-198 | a failed attempt jumps to the first later character that state 0 accepts, and skips offsets in between, even when state 0 is optional and any offset could start a match | pattern `a?b.c`, line `bbac\n`: no match is reported, yet `bac` matches at offset 1 | report a match whenever some offset starts one | not executed | RegexFacts.MissedMatch | RegexFacts.SearchEveryComplete |
| src/jrep.c:163-164 | the exit status uses `matches`, which is reset for every line, so it reflects the last line only | any pattern, with the input's only matching line not last: status 1 | status 0 when any line matched, 1 when none did | not executed | JrepSpec.StatusLastOnly | JrepSpec.StatusAny |
| src/jrep.c:138 | `-v` flips each alternative before the or, so the line is selected when some alternative misses it | `-v 'a\|b'` on line `a\n`: selected, though it matches `a\|b` | select the lines the whole alternation does not match | not executed | JrepSpec.InverseOverlap | JrepSpec.InverseComplement |
