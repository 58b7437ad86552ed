# XShell builder, modelled in Dafny

The XShell plugin adds a build step to Jenkins that runs one command line on
the node, whichever platform that node runs. Before the command is launched,
`XShellBuilder` rewrites it for the platform:

- `convertSeparator` changes every `/` and `\` in each whitespace-separated
  token into the node's separator. A token that looks like a URL (it contains
  `http:`, `https:`, `httpss:`…, `ftp:` or `git:`) is left alone.
- `convertEnvVarsToUnix` turns `%NAME%` into `$NAME`.
  `convertEnvVarsToWindows` turns `$NAME` into `%NAME%`.
- On Unix, `./` is put in front when the command is to run from the working
  directory.

While the child process runs, `perform` polls it:

1. It drains the buffer that receives the child's output.
2. It prints the drained chunk to the build log.
3. It kills the child when the configured regular expression occurs in the
   chunk, or once more than the allotted number of whole seconds has passed
   (`elapsed / 1000 > timeAllowed` on a `long`, so a limit of 5 first kills
   at 6000 ms). Each kill adds one line to the log.
4. When the child ends, it prints what is left in the buffer and reports
   success when the exit code is 0.

The project has five files:

- `text.dfy`: `Option`/`Result`, the character classes of the regular
  expressions (`\s`, `[a-zA-Z0-9_]`, `[/\\]`) and the greedy runs they match.
- `separators.dfy`: `convertSeparator`, as a method over a token scanner,
  proved against the function `Converted`.
- `envvars.dfy`: the two variable-syntax converters, as one Matcher loop
  proved against the function `Rewritten`.
- `supervisor.dfy`: the polling loop over classes for the output buffer, the
  build log and the child process, proved against `SessionLog` and `KillsIn`.
- `xshell.dfy`: the builder's configuration and the constructor's
  normalisation, `Long.parseLong`, the command preparation and `perform`.

The process, the clock and the regular-expression engine are inputs:

- A `Run` holds one `Tick` for each time `child.isAlive()` held. A tick
  splits what the child wrote in that pass into `written` (since the last
  `reset()`, up to `baos.toString()`) and `racing` (between `toString()` and
  `reset()`), and it records how many milliseconds had passed at the timeout
  test.
- A `Run` also holds `tail`, everything the child wrote after the last
  `reset()` and before the final `baos.toString()`. That includes what it
  wrote during the last pass's print, kill or sleep and during the last
  `isAlive()` call.
- A `Run` also holds `late`, what reached the buffer after that final read
  and before `child.join()`, and the exit code.
- `find` is `find()` of the compiled kill pattern.

Two behaviours of the code are easy to miss:

- `convertSeparator` has no null check. A blank command line is stored as
  null and makes `perform` fail with a `NullPointerException`
  (`Err(NullPointer)`); it is not passed on as null.
- The loop has no "already killed" guard. Every later chunk that matches
  kills the child again and logs another line (`KillsRepeat`).

Output can be lost in two places:

- bytes the child writes between `baos.toString()` and `baos.reset()` inside
  the loop;
- bytes that reach the buffer after the final `baos.toString()` and before
  `child.join()`.

`LogIsChildOutput` proves that the text printed to the build log is exactly
the child's output if and only if neither happens.

## Model

| member | source | states |
|---|---|---|
| Text.WordRunMaximal | src/main/java/hudson/plugins/xshell/XShellBuilder.java:28-29 | the greedy `[a-zA-Z0-9_]` run is made of word characters and stops at a non-word character or at the end |
| Text.SpaceRunMaximal | src/main/java/hudson/plugins/xshell/XShellBuilder.java:178-182 | the whitespace `find()` skips before a `\S+` token is all `\s` and stops at a non-space |
| Text.TokenLenMaximal | src/main/java/hudson/plugins/xshell/XShellBuilder.java:178-183 | a `\S+` token holds no whitespace and is followed by whitespace or the end |
| Text.WordRunOf | src/main/java/hudson/plugins/xshell/XShellBuilder.java:28-29 | a run of word characters followed by a non-word character is measured exactly |
| Text.TokenLenOf | src/main/java/hudson/plugins/xshell/XShellBuilder.java:178 | a token followed by whitespace is measured exactly |
| Separators.FindToken | src/main/java/hudson/plugins/xshell/XShellBuilder.java:182-183 | `m.find()` for `\S+`: the token starts after the maximal whitespace run and ends at the first whitespace; a token is found whenever a non-whitespace character is left |
| Separators.NextToken | src/main/java/hudson/plugins/xshell/XShellBuilder.java:178-183 | the positions `FindToken` returns skip only whitespace, and delimit a non-empty whitespace-free token followed by whitespace or the end |
| Separators.ConvertSeparator | src/main/java/hudson/plugins/xshell/XShellBuilder.java:174-193 | the `appendReplacement`/`appendTail` loop returns exactly `Converted(cmdLine, newSeparator)` |
| Separators.ConvertedFrom | src/main/java/hudson/plugins/xshell/XShellBuilder.java:182-190 | from any scan position, the result is the skipped whitespace, then the token (translated, or copied when it holds a URL), then the rest; with no token left, the rest is copied |
| Separators.ReplacementStep | src/main/java/hudson/plugins/xshell/XShellBuilder.java:187 | one `appendReplacement` of a translated token keeps "buffer + converted remainder = converted line" |
| Separators.UrlStep | src/main/java/hudson/plugins/xshell/XShellBuilder.java:184-188 | skipping a URL token without `appendReplacement` keeps the same invariant, the token being carried over later |
| Separators.TailStep | src/main/java/hudson/plugins/xshell/XShellBuilder.java:190 | once no token is left, `appendTail` completes the converted line |
| Separators.ConvertedAllSpace | src/main/java/hudson/plugins/xshell/XShellBuilder.java:190 | text that is all whitespace is copied unchanged |
| Separators.TokenConverted | src/main/java/hudson/plugins/xshell/XShellBuilder.java:183-188 | a single token is translated as a whole: copied if it holds a URL, otherwise every separator is replaced |
| Separators.ConvertedSplits | src/main/java/hudson/plugins/xshell/XShellBuilder.java:178-190 | cutting the line at a whitespace boundary cuts the result there too |
| Separators.ConvertedAt | src/main/java/hudson/plugins/xshell/XShellBuilder.java:182-188 | a token found at `start..end` after whitespace is replaced by its translation and nothing else around it changes |
| Separators.TokenInContext | src/main/java/hudson/plugins/xshell/XShellBuilder.java:182-190 | a whitespace-delimited token is translated on its own, whatever surrounds it |
| Separators.TokenTranslated | src/main/java/hudson/plugins/xshell/XShellBuilder.java:179-187 | a token that contains `http`+`s*`+`:`, `ftp:` or `git:` anywhere is copied unchanged; in any other token every `/` and `\` becomes the separator |
| Separators.ReplaceSepsAt | src/main/java/hudson/plugins/xshell/XShellBuilder.java:175-176 | with a one-character separator, replacement keeps the length and changes exactly the positions holding `/` or `\` |
| Separators.ReplaceSepsConcat | src/main/java/hudson/plugins/xshell/XShellBuilder.java:187 | `replaceAll` of the separators works character by character, so it distributes over concatenation |
| Separators.EssesUpToSeps | src/main/java/hudson/plugins/xshell/XShellBuilder.java:179 | the `s*:` tail of the URL pattern does not depend on which separator characters occur |
| Separators.SchemeUpToSeps | src/main/java/hudson/plugins/xshell/XShellBuilder.java:179 | URL detection gives the same answer on two strings that differ only in their separator characters |
| Separators.TranslateTokenTwice | src/main/java/hudson/plugins/xshell/XShellBuilder.java:183-188 | with `/` or `\` as separator, translating a token twice is translating it once, and keeps its length and its lack of whitespace |
| Separators.ConvertIdempotent | src/main/java/hudson/plugins/xshell/XShellBuilder.java:174-193 | with `UNIX_SEP` or `WINDOWS_SEP`, converting an already converted line changes nothing |
| Separators.ReshapedConcat | src/main/java/hudson/plugins/xshell/XShellBuilder.java:180-190 | the same-shape relation between input and result is kept when two pieces are joined |
| Separators.ConvertKeepsShape | src/main/java/hudson/plugins/xshell/XShellBuilder.java:174-193 | with a one-character separator the result has the input's length; every character other than `/` and `\`, whitespace included, is unchanged at its position, and a separator stays or becomes the new one |
| Separators.EssesInPrefix | src/main/java/hudson/plugins/xshell/XShellBuilder.java:179 | a `s*:` match survives anything appended after it |
| Separators.SchemeInPrefix | src/main/java/hudson/plugins/xshell/XShellBuilder.java:184 | the unanchored URL `find()` still succeeds when text is appended |
| Separators.SchemeInSuffix | src/main/java/hudson/plugins/xshell/XShellBuilder.java:184 | the unanchored URL `find()` still succeeds when text is prepended |
| Separators.NoUrlReplacesAll | src/test/java/hudson/plugins/xshell/XShellBuilderTest.java:124-128 | when no URL occurs in the line, the result is the whole line with every separator replaced |
| Separators.EssesNeedColon | src/main/java/hudson/plugins/xshell/XShellBuilder.java:179 | the `s*:` tail of the URL pattern always contains a colon |
| Separators.SchemeNeedsColon | src/main/java/hudson/plugins/xshell/XShellBuilder.java:179 | every URL the pattern finds contains a colon |
| Separators.NoSepsUnchanged | src/main/java/hudson/plugins/xshell/XShellBuilder.java:187 | text without `/` or `\` is left as it is by the replacement |
| Separators.OneSeparator | src/main/java/hudson/plugins/xshell/XShellBuilder.java:174-193 | in a line without colons or other separators, exactly the one separator is replaced |
| Separators.UnixToWindowsExample | src/test/java/hudson/plugins/xshell/XShellTest.java:11-14 | `"mycmd a/b"` becomes `"mycmd a\b"` with `WINDOWS_SEP` |
| Separators.WindowsToUnixExample | src/test/java/hudson/plugins/xshell/XShellTest.java:16-19 | `"mycmd a\b"` becomes `"mycmd a/b"` with `UNIX_SEP` |
| EnvVars.NextMatch | src/main/java/hudson/plugins/xshell/XShellBuilder.java:210 | the position the next `find()` reports lies in the unread part of the line, and the pattern matches there unless it is the end |
| EnvVars.NextMatchSpec | src/main/java/hudson/plugins/xshell/XShellBuilder.java:210 | `find()` skips no position where the pattern matches |
| EnvVars.FindReference | src/main/java/hudson/plugins/xshell/XShellBuilder.java:210-233 | `m.find()` of either converter (line 210 for `%NAME%`, line 233 for `$NAME`): the scanning loop stops at the first match at or after its start position, or at the end |
| EnvVars.Substitute | src/main/java/hudson/plugins/xshell/XShellBuilder.java:207-238 | the `find`/`appendReplacement`/`appendTail` loop of either converter (lines 207-215 and 230-238) returns exactly `Rewritten(p, s)` |
| EnvVars.ConvertEnvVarsToUnix | src/main/java/hudson/plugins/xshell/XShellBuilder.java:202-216 | null stays null; otherwise every left-to-right non-overlapping `%NAME%` becomes `$NAME` and all other text is copied |
| EnvVars.ConvertEnvVarsToWindows | src/main/java/hudson/plugins/xshell/XShellBuilder.java:225-239 | null stays null; otherwise every greedy `$NAME` becomes `%NAME%` and all other text is copied |
| EnvVars.CopyStep | src/main/java/hudson/plugins/xshell/XShellBuilder.java:213 | a character where no reference starts is copied |
| EnvVars.ReplaceStep | src/main/java/hudson/plugins/xshell/XShellBuilder.java:211 | a reference is replaced by the replacement text built from its name, and the scan resumes after it |
| EnvVars.UnmatchedRun | src/main/java/hudson/plugins/xshell/XShellBuilder.java:210-213 | a stretch where no reference starts is copied unchanged |
| EnvVars.SkipUnmatched | src/main/java/hudson/plugins/xshell/XShellBuilder.java:210-211 | the text before the next match is copied unchanged |
| EnvVars.MatchAt | src/main/java/hudson/plugins/xshell/XShellBuilder.java:211 | the match at the found position becomes its replacement, followed by the rest of the line, rewritten |
| EnvVars.Advance | src/main/java/hudson/plugins/xshell/XShellBuilder.java:210-234 | one `appendReplacement` of either converter (lines 210-211 and 233-234) keeps "buffer + rewritten remainder = rewritten line" |
| EnvVars.Finish | src/main/java/hudson/plugins/xshell/XShellBuilder.java:213-236 | once no match is left, `appendTail` of either converter (lines 213 and 236) completes the rewritten line |
| EnvVars.PercentMatchUnique | src/main/java/hudson/plugins/xshell/XShellBuilder.java:28 | a `%NAME%` match has only one possible length |
| EnvVars.DollarMatchUnique | src/main/java/hudson/plugins/xshell/XShellBuilder.java:29 | a greedy `$NAME` match has only one possible length |
| EnvVars.MatchLenIsMatch | src/main/java/hudson/plugins/xshell/XShellBuilder.java:28-29 | the matcher finds a reference exactly where the pattern, read declaratively, matches, and with the only length it can match |
| EnvVars.PercentMatchOf | src/main/java/hudson/plugins/xshell/XShellBuilder.java:28 | `%NAME%` with a non-empty word name matches whole, whatever follows, with group 1 = NAME |
| EnvVars.DollarMatchOf | src/main/java/hudson/plugins/xshell/XShellBuilder.java:29 | `$NAME` matches whole, with group 1 = NAME, when no word character follows |
| EnvVars.NoSigilUnchanged | src/test/java/hudson/plugins/xshell/XShellTest.java:32-41 | a line without `%` is returned unchanged by the Unix converter, and a line without `$` by the Windows one |
| EnvVars.NoSigilPrefix | src/main/java/hudson/plugins/xshell/XShellBuilder.java:209-213 | a prefix without the opening character is copied and the rest is rewritten on its own |
| EnvVars.DollarFront | src/main/java/hudson/plugins/xshell/XShellBuilder.java:232-236 | the Windows converter keeps whether the first character is a word character |
| EnvVars.DollarParts | src/main/java/hudson/plugins/xshell/XShellBuilder.java:29 | a `$NAME` match splits into `$`, a non-empty word name, and a rest that does not start with a word character |
| EnvVars.WindowsIdempotent | src/main/java/hudson/plugins/xshell/XShellBuilder.java:225-239 | converting to Windows syntax twice is converting once |
| EnvVars.UnixAfterWindows | src/main/java/hudson/plugins/xshell/XShellBuilder.java:202-239 | on a line without `%`, converting to Windows syntax and back to Unix syntax restores the line |
| EnvVars.WindowsAfterUnixCounterexample | src/main/java/hudson/plugins/xshell/XShellBuilder.java:202-239 | the opposite round trip fails: `%A%B` becomes `$AB`, then `%AB%` |
| EnvVars.AfterPlainPrefix | src/main/java/hudson/plugins/xshell/XShellBuilder.java:209-213 | a known rewrite of a suffix is kept behind a prefix without the opening character |
| EnvVars.PercentAlone | src/main/java/hudson/plugins/xshell/XShellBuilder.java:209-213 | a line that is one `%NAME%` reference becomes `$NAME` |
| EnvVars.UnixExample | src/test/java/hudson/plugins/xshell/XShellBuilderTest.java:134-139 | `set PATH=C:\;%PATH%` becomes `set PATH=C:\;$PATH` |
| EnvVars.DollarAlone | src/main/java/hudson/plugins/xshell/XShellBuilder.java:232-236 | a line that is one `$NAME` reference becomes `%NAME%` |
| EnvVars.WindowsExample | src/test/java/hudson/plugins/xshell/XShellBuilderTest.java:141-146 | `PATH=/opt/jdk17/bin:$PATH` becomes `PATH=/opt/jdk17/bin:%PATH%` |
| EnvVars.UnixVarExample | src/test/java/hudson/plugins/xshell/XShellTest.java:43-45 | `mycmd %VAR%` becomes `mycmd $VAR` |
| EnvVars.WindowsVarExample | src/test/java/hudson/plugins/xshell/XShellTest.java:21-23 | `mycmd $VAR` becomes `mycmd %VAR%` |
| EnvVars.PercentLast | src/main/java/hudson/plugins/xshell/XShellBuilder.java:209-213 | a `%NAME%` reference at the end of a line, behind text without `%`, becomes `$NAME` and the text before it is kept |
| EnvVars.DollarLast | src/main/java/hudson/plugins/xshell/XShellBuilder.java:232-236 | a `$NAME` reference at the end of a line, behind text without `$`, becomes `%NAME%` and the text before it is kept |
| EnvVars.PercentBeforePlain | src/main/java/hudson/plugins/xshell/XShellBuilder.java:209-213 | one `%NAME%` reference between two stretches of text without `%` becomes `$NAME`, and both stretches are kept |
| EnvVars.DollarBeforePlain | src/main/java/hudson/plugins/xshell/XShellBuilder.java:232-236 | one `$NAME` reference between two stretches of text without `$`, the second not starting with a word character, becomes `%NAME%`, and both stretches are kept |
| EnvVars.DollarBetween | src/main/java/hudson/plugins/xshell/XShellBuilder.java:232-236 | a `$NAME` reference behind text without `$` becomes `%NAME%`, and the text after it is rewritten on its own |
| EnvVars.PercentBetween | src/main/java/hudson/plugins/xshell/XShellBuilder.java:209-213 | a `%NAME%` reference behind text without `%` becomes `$NAME`, and the text after it is rewritten on its own |
| EnvVars.TwoDollars | src/main/java/hudson/plugins/xshell/XShellBuilder.java:232-236 | two `$NAME` references separated by text without `$` that does not start with a word character both become `%NAME%`, and the text around them is kept |
| EnvVars.TwoPercents | src/main/java/hudson/plugins/xshell/XShellBuilder.java:209-213 | two `%NAME%` references separated by text without `%` both become `$NAME`, and the text around them is kept |
| EnvVars.WindowsDirExample | src/test/java/hudson/plugins/xshell/XShellTest.java:25-26 | `mycmd $VAR/one_dir` becomes `mycmd %VAR%/one_dir` |
| EnvVars.WindowsTwoExample | src/test/java/hudson/plugins/xshell/XShellTest.java:28-29 | `mycmd $WORKSPACE/$JOB_NAME` becomes `mycmd %WORKSPACE%/%JOB_NAME%` |
| EnvVars.UnixDirExample | src/test/java/hudson/plugins/xshell/XShellTest.java:47-48 | `mycmd %VAR%\one_dir` becomes `mycmd $VAR\one_dir` |
| EnvVars.UnixTwoExample | src/test/java/hudson/plugins/xshell/XShellTest.java:50-51 | `mycmd %WORKSPACE%\%JOB_NAME%` becomes `mycmd $WORKSPACE\$JOB_NAME` |
| EnvVars.UnixKeepsDollarExamples | src/test/java/hudson/plugins/xshell/XShellTest.java:32-41 | the Unix converter returns the three `$NAME` command lines unchanged |
| EnvVars.WindowsKeepsPercentExamples | src/test/java/hudson/plugins/xshell/XShellTest.java:54-63 | the Windows converter returns the three `%NAME%` command lines unchanged |
| EnvVars.DollarBracedPath | src/main/java/hudson/plugins/xshell/XShellBuilder.java:29 | `${PATH}` is not a reference and is left alone |
| EnvVars.WindowsBracedExample | src/test/java/hudson/plugins/xshell/XShellBuilderTest.java:148-154 | `PATH=/opt/jdk17/bin:${PATH}` is returned unchanged |
| Supervisor.Seconds | src/main/java/hudson/plugins/xshell/XShellBuilder.java:153 | `elapsed / 1000` on a `long` truncates toward zero, for negative elapsed times too |
| Supervisor.OutputBuffer.constructor | src/main/java/hudson/plugins/xshell/XShellBuilder.java:132 | a new buffer is empty |
| Supervisor.OutputBuffer.Write | src/main/java/hudson/plugins/xshell/XShellBuilder.java:133-136 | the child's output is appended to the buffer |
| Supervisor.OutputBuffer.Snapshot | src/main/java/hudson/plugins/xshell/XShellBuilder.java:143 | `toString()` returns the whole buffer and changes nothing |
| Supervisor.OutputBuffer.Reset | src/main/java/hudson/plugins/xshell/XShellBuilder.java:144 | `reset()` empties the buffer |
| Supervisor.BuildLog.constructor | src/main/java/hudson/plugins/xshell/XShellBuilder.java:146 | a new build log is empty |
| Supervisor.BuildLog.Print | src/main/java/hudson/plugins/xshell/XShellBuilder.java:146 | `print(s)` appends one text entry |
| Supervisor.BuildLog.Println | src/main/java/hudson/plugins/xshell/XShellBuilder.java:152 | `println(s)` appends one line entry |
| Supervisor.Child.constructor | src/main/java/hudson/plugins/xshell/XShellBuilder.java:135-136 | a started child has not been killed |
| Supervisor.Child.Kill | src/main/java/hudson/plugins/xshell/XShellBuilder.java:151 | every `kill()` call is counted |
| Supervisor.Supervise | src/main/java/hudson/plugins/xshell/XShellBuilder.java:131-165 | the log gains exactly `SessionLog` (each drained chunk, then the kill line when one fires, then the final flush), the child is killed `KillsIn` times, and the result is `join() == 0`; output written after the final read reaches the buffer but not the log |
| Supervisor.Tend | src/main/java/hudson/plugins/xshell/XShellBuilder.java:146-158 | after a chunk is read, the log gains the chunk and, when a guard fires, its kill line (the match guard first), and the child is killed once exactly when `Decide` does not say to sleep |
| Supervisor.LoopStep | src/main/java/hudson/plugins/xshell/XShellBuilder.java:140-160 | one more pass of the loop adds its step's entries to the log and one kill when a guard fires |
| Supervisor.DecideCases | src/main/java/hudson/plugins/xshell/XShellBuilder.java:149-159 | a match kills exactly when the pattern is non-empty and found in the chunk; it takes precedence, and the timeout kills otherwise exactly when the limit is positive and at least `(limit + 1) * 1000` ms have passed |
| Supervisor.ChunksAppend | src/main/java/hudson/plugins/xshell/XShellBuilder.java:146-163 | the printed chunks and the kill lines of a log add up over its parts |
| Supervisor.ChunksOfSession | src/main/java/hudson/plugins/xshell/XShellBuilder.java:140-164 | each drained chunk is printed exactly once and in order, then the final flush |
| Supervisor.ChunksOfLoop | src/main/java/hudson/plugins/xshell/XShellBuilder.java:140-160 | the loop prints one chunk per pass and one line per kill |
| Supervisor.StepChunks | src/main/java/hudson/plugins/xshell/XShellBuilder.java:143-159 | one pass prints its chunk, plus one line exactly when it kills |
| Supervisor.LinesAreKills | src/main/java/hudson/plugins/xshell/XShellBuilder.java:149-156 | the log holds as many diagnostic lines as there were kills |
| Supervisor.WrittenLength | src/main/java/hudson/plugins/xshell/XShellBuilder.java:143-144 | the drained chunks never hold more than the child wrote, and they hold all of it exactly when nothing raced the reset |
| Supervisor.LogIsChildOutput | src/main/java/hudson/plugins/xshell/XShellBuilder.java:140-165 | the text printed to the log is the child's whole output if and only if nothing was written between a `toString()` and the `reset()` after it, and nothing was written after the final `toString()` |
| Supervisor.LineFollowsChunk | src/main/java/hudson/plugins/xshell/XShellBuilder.java:146-156 | every kill line comes right after a printed chunk, and a "Matched" line comes right after a chunk in which the pattern is non-empty and found: the chunk that triggered it is always in the log |
| Supervisor.UnarmedNeverKills | src/main/java/hudson/plugins/xshell/XShellBuilder.java:149-153 | with an empty or missing pattern and a limit of at most 0, the loop never kills and logs no line |
| Supervisor.KillsRepeat | src/main/java/hudson/plugins/xshell/XShellBuilder.java:149-152 | with no "already killed" guard, every pass whose chunk matches kills again |
| XShell.TrimStartSpec | src/main/java/hudson/plugins/xshell/XShellBuilder.java:75 | trimming the front removes a blank prefix and nothing more |
| XShell.TrimEndSpec | src/main/java/hudson/plugins/xshell/XShellBuilder.java:75 | trimming the back removes a blank suffix and nothing more |
| XShell.TrimSpec | src/main/java/hudson/plugins/xshell/XShellBuilder.java:75 | `trim` returns a slice of the input; all that is cut is blank, what remains starts and ends non-blank, and it is empty exactly when the input is all blank |
| XShell.NewBuilderNormalises | src/main/java/hudson/plugins/xshell/XShellBuilder.java:74-79 | the command line is null exactly when given null or blank, and is otherwise trimmed; a null kill pattern is stored as `""`; the other two settings are kept |
| XShell.ParseLong | src/main/java/hudson/plugins/xshell/XShellBuilder.java:125-129 | a parsed limit lies in the range of a `long` |
| XShell.DigitsValueOf | src/main/java/hudson/plugins/xshell/XShellBuilder.java:126 | the decimal digits of a number parse back to that number |
| XShell.ParseLongRoundTrip | src/main/java/hudson/plugins/xshell/XShellBuilder.java:126 | every `long`, printed in decimal, parses back to itself |
| XShell.PositiveLimitIsDigits | src/main/java/hudson/plugins/xshell/XShellBuilder.java:123-129 | a limit that parses to a positive number was written as decimal digits, with at most a leading `+` |
| XShell.TimeAllowedRejects | src/main/java/hudson/plugins/xshell/XShellBuilder.java:125-129 | null, empty, a bare sign, words and a value past the largest `long` all leave the limit at 0 |
| XShell.PrepareCommand | src/main/java/hudson/plugins/xshell/XShellBuilder.java:94-106 | the string given to the tokenizer is the converted command, with `./` in front on Unix when asked; a null command line or a null flag on Unix fails with a null-pointer error |
| XShell.Perform | src/main/java/hudson/plugins/xshell/XShellBuilder.java:87-165 | a null-pointer failure while preparing the command logs nothing and kills nothing; otherwise the result is `join() == 0`, and the log and the kills are those of the supervision loop |
| XShell.WorkingDirPrefix | src/main/java/hudson/plugins/xshell/XShellBuilder.java:106 | on Unix the flag set puts `./` in front of exactly the command prepared with it cleared |
| XShell.WindowsIgnoresWorkingDir | src/main/java/hudson/plugins/xshell/XShellBuilder.java:106 | on Windows the flag is never read, so a null flag does no harm |
| XShell.WindowsPlainCommand | src/main/java/hudson/plugins/xshell/XShellBuilder.java:94-100 | on Windows, a command without URLs and without `$` only has its separators turned into backslashes |
| XShell.UnconfiguredNeverKills | src/main/java/hudson/plugins/xshell/XShellBuilder.java:77 | a builder made with neither a kill pattern nor a time limit never kills its child |

## Left out

- Jenkins plumbing is not modelled: the descriptor, `getDescriptor`,
  `Messages`, `@Extension` and the getters. They are framework calls with no
  logic of their own.
- Launching and controlling the process is not modelled: `launch()`,
  `isAlive`, `join`, `StreamBuildListener`, the working directory and the
  environment (`env.putAll`). They are operating-system I/O. A `Run` stands
  for what they produce, and `Child.Kill` counts the kills.
- `ArgumentListBuilder.addTokenized` and `toWindowsCommand` (lines 104-113)
  are not modelled, because their quoting rules are library code.
  `PrepareCommand` stops at the string passed to `addTokenized`.
- The `java.util.regex` engine behind the kill pattern is not modelled. It is
  the input `find`. The failure of `Pattern.compile` on a malformed pattern is
  not modelled either. The five fixed patterns of the converters are modelled
  exactly: `\S+`, `(https*|ftp|git):`, `[/\\]`, `%([a-zA-Z0-9_]+)%` and
  `\$([a-zA-Z0-9_]+)`.
- The clock and `Thread.sleep(2)` are not modelled. The elapsed milliseconds
  are part of each tick, and a sleep that returns does nothing to the
  modelled state.
- Supervisor.Supervise: a `Run` models only sessions that are not
  interrupted. `Thread.sleep(2)` (line 158) and `child.join()` (line 165) can
  throw `InterruptedException`, which `perform` declares (line 88) and does
  not catch (the `catch` at line 166 takes only `IOException`). The two
  cases differ:
  - An interrupt in `Thread.sleep(2)` ends the loop early. The remaining
    passes' prints and kills, the final print and the result are all lost.
  - An interrupt in `child.join()` comes after the final print (lines
    162-164). The log is then the full `SessionLog` and the kills are
    `KillsIn`; only the result is lost.
  The model always returns a result.
- `baos.flush()` and `getLogger().flush()` are not modelled. They change no
  contents.
- Logging through `java.util.logging` (`LOG.log`) is not modelled. It has no
  effect on the result.
- The `IOException` path (lines 166-171) is not modelled. It is I/O failure
  reporting.
- XShell.ParseLong: accepts only ASCII digits. `Long.parseLong` also accepts
  other Unicode decimal digits.
- Supervisor.LogIsChildOutput: the child's output is modelled as decoded
  text. `baos.toString()` decodes each drain separately with the platform
  charset, so a multi-byte character split across two drains reaches the log
  as replacement characters. That decoding is not modelled.
- Supervisor.BuildLog.Println: records a line entry. It does not model the
  platform's line separator.
- Jenkins' `Util` class is not part of this model. `Util.fixEmptyAndTrim` is
  modelled from its documented behaviour: trim every character up to the
  space, then empty becomes null. `Long.parseLong` is also modelled from its
  documented behaviour.
- The tests' five-argument constructor and `getWorkingDir` do not exist in the
  builder and are not modelled.
