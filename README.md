# pytest-watch configuration merging, modelled in Dafny

This project models `pytest_watch/config.py`, the part of pytest-watch that
finds the test runner's ini file, reads the `[pytest-watch]` section from it
and fills in the command-line options the user left unset. It models four
pieces:

- **`MultiLineConfigParser`.** Its `get` turns a value that holds a newline
  into the list of its lines. Its `read` rewrites every bracket array
  `key = [ a, b, ... ]` at the start of a line before the parser library
  reads the file's text.
- **`CollectConfig`.** This is the plugin whose command-line hook records the
  ini file and stops the run.
- **Discovery.** `_run_pytest_collect` and `_collect_config` run the test
  runner with `--collect-only`. When the silenced attempt raises
  `KeyboardInterrupt`, an `Exception` or `SystemExit`, they retry once
  without silencing.
- **`merge_config`.** It updates the parsed command line in place from the
  section. Command-line values that are truthy take precedence. Lists are
  extended, flags go through `getboolean`, and every other value is replaced.

## Modules

| file | module | models |
|---|---|---|
| `outcomes.dfy` | `Outcomes` | `Option`, the exceptions of the core, and `Outcome` (a return or a raise). |
| `text.dfy` | `Text` | The Python `str` operations the core uses: `isspace`/`\s`, `strip` with and without characters, `split` on one character, and `join`. |
| `array_syntax.dfy` | `ArraySyntax` | The pattern of line 43 at one position (`MatchAt`), `re.sub` over the text (`Scan`, `Normalize`), and `_replace_array` (`CleanItems`, `ReplaceArray`). |
| `multiline_parser.dfy` | `MultiLineParser` | `get` (`Get`), and `read` as the class `MultiLineConfigParser`. The class records the calls `read` makes into the parser library. |
| `collect.dfy` | `Collect` | The class `CollectConfig`, `RunPytestCollect`, and the retry policy (`Discovery`, `CollectConfigPath`). |
| `merge.dfy` | `Merge` | The parsed command line as the class `Arguments`, one turn of the merge loop (`MergeKey`), the loop itself (`MergeKeys`), and `MergeConfig`. |

The pattern `^(?P<key>\s*[^=\s]+\s*=\s*)\[(?P<items>.*?)\]` is modelled exactly, not as a line-based approximation.
- **One position (`MatchAt`).** Once a start position is fixed, the pattern has at most one match.
  - Each greedy run is followed by a character that the run cannot take. Backtracking therefore never shortens it.
  - The lazy item group ends at the first `]`.
  - `MatchAtSound` and `MatchAtComplete` prove that `MatchAt` is this one match.
- **The whole text (`Scan`).** `Scan` tries the pattern everywhere MULTILINE `^` holds: at the start of the text and after each `\n`.
  - After a match it resumes behind the `]`, where `^` cannot hold.
- **Whitespace.** `\s*` in the key group can cross newlines, because `\s` includes `\n`.
- **Items.** The item group can span lines (DOTALL).

### Where the code and the intuitive reading disagree (the model follows the code)

- **The separator is not a newline.** Line 53 joins the cleaned items with `'\\n'`, which is the two characters backslash and `n`.
  - So a bracket array whose items hold no newline does not come back from `get` as a list: `BracketArrayReadsAsScalar` proves it.
  - An item that spans lines keeps its real newline, because `strip` only trims the ends of an item. `MultiLineItemLine` shows `name = [x⏎ y]` becoming `name = x⏎ y`, and such a value does come back from `get` as a list.
  - `IgnoreScenario` shows `--ignore` receiving the single item `a\nb` from `[a, b]`, not the two items `a` and `b`.
- **A non-empty list given on the command line is never extended from the file.** A non-empty list is truthy, and line 152 skips truthy values (`NonEmptyListKept`).
- **The rewrite is not idempotent on every text.** Its output can hold a `[` that was not part of a match, so `NormalizeWithoutBracket` states idempotence only for text without a `[`. `NormalizeNotIdempotent` shows `name = [ [x] ]` changing again on a second rewrite.

## Model

| member | source | states |
|---|---|---|
| Text.IsSpace | pytest_watch/config.py:43-51 | The whitespace of `\s` and of `strip()`. `KeptIffNotBlank` and `StripSpec` rest on it. |
| Text.Strip | pytest_watch/config.py:49 | `strip` with and without characters. `StripSpec`, `StripSurrounded` and `StripEmpty` state what it leaves. |
| Text.StripSpec | pytest_watch/config.py:49 | `strip` leaves a text that neither starts nor ends with a character of the set. It adds no character, and it leaves nothing exactly when the whole text is in the set. |
| Text.StripSurrounded | pytest_watch/config.py:49 | Stripping set characters, then a core that does not start or end with one, then more set characters, gives the core. |
| Text.Split | pytest_watch/config.py:50 | `split` on one character gives at least one part. No part holds the separator, and there are two parts or more exactly when the text holds it. |
| Text.Join | pytest_watch/config.py:53 | `join` of a list with a separator. `JoinSplit` and `SplitJoin` make it the inverse of `Split`. |
| Text.JoinSplit | pytest_watch/config.py:24 | Joining the parts of a split with the separator gives the text back. |
| Text.SplitJoin | pytest_watch/config.py:24 | Splitting a join of separator-free parts gives the parts back. |
| ArraySyntax.Clean | pytest_watch/config.py:49 | A cleaned token neither starts nor ends with `'`, and it holds only characters of the token. |
| ArraySyntax.Kept | pytest_watch/config.py:51 | The filter `if item.strip()` of the comprehension. `KeptIffNotBlank` characterises it. |
| ArraySyntax.KeptIffNotBlank | pytest_watch/config.py:51 | A token passes the filter exactly when it is not all whitespace. |
| ArraySyntax.QuotesOnlyToken | pytest_watch/config.py:48-52 | A token of double quotes only, such as `""`, passes the filter and becomes the empty item. |
| ArraySyntax.CleanTokens | pytest_watch/config.py:48-52 | The comprehension over the comma-split tokens. `CleanTokensEmpty` and `CleanTokensAppend` state what it keeps and in what order. |
| ArraySyntax.CleanTokensEmpty | pytest_watch/config.py:48-52 | The comprehension never adds items. It is empty exactly when every token is dropped. |
| ArraySyntax.CleanTokensAppend | pytest_watch/config.py:48-52 | The comprehension keeps order: cleaning two runs of tokens is cleaning each run and concatenating the results. |
| ArraySyntax.CleanItems | pytest_watch/config.py:48-52 | No item holds a comma and none starts or ends with `'`. The list is empty exactly when the brackets hold only commas and whitespace. |
| ArraySyntax.ReplaceArray | pytest_watch/config.py:47-53 | The replacement starts with the key group as written. A blank item list leaves only the key group. |
| ArraySyntax.ReplaceArrayCount | pytest_watch/config.py:53 | The replacement adds no character except those of the backslash-`n` separator. |
| ArraySyntax.IsNameChar | pytest_watch/config.py:43 | The class `[^=\s]` of the key name. `MatchAtSound` and `MatchAtComplete` use it through `Matches`. |
| ArraySyntax.Span | pytest_watch/config.py:43 | A greedy run of a character class stays within the text. `SpanSpec` and `SpanEndsAt` state that it is the longest run. |
| ArraySyntax.SpanSpec | pytest_watch/config.py:43 | Every character the greedy run covers is in the class, and the character after it, if any, is not. |
| ArraySyntax.SpanEndsAt | pytest_watch/config.py:43 | A run of the class that ends where the class stops is exactly the run `Span` finds, so backtracking never shortens it. |
| ArraySyntax.Find | pytest_watch/config.py:43 | The lazy `.*?\]` ends at the first `]` after the bracket, or there is none. |
| ArraySyntax.Matches | pytest_watch/config.py:43 | The pattern as a predicate on a text and the positions of its groups. `MatchAtSound` and `MatchAtComplete` tie `MatchAt` to it. |
| ArraySyntax.MatchAt | pytest_watch/config.py:43 | The pattern tried at one position. A reported match lies inside the text; `MatchAtSound` and `MatchAtComplete` make it the pattern's one match. |
| ArraySyntax.MatchAtSound | pytest_watch/config.py:42-45 | Every match `MatchAt` reports fits the pattern: whitespace, a name, whitespace, `=`, whitespace, `[`, items without `]`, `]`. |
| ArraySyntax.MatchAtComplete | pytest_watch/config.py:42-45 | Whenever the pattern matches at a line start, `MatchAt` reports exactly that match. |
| ArraySyntax.Scan | pytest_watch/config.py:55 | `re.sub` from a position where `^` holds or does not. `ScanAtMatch`, `ScanWithoutBracket` and `ScanCount` state what it does. |
| ArraySyntax.Normalize | pytest_watch/config.py:55 | The processed content. `NormalizeWithoutBracket`, `NormalizeAddsNoNewline`, `NormalizeArrayLine` and `NormalizeNotIdempotent` state what it does. |
| ArraySyntax.Replaced | pytest_watch/config.py:47-53 | The replacement for one match: its key group and its item group handed to `_replace_array`. `ScanAtMatch` and `ReplacedCount` state what it gives. |
| ArraySyntax.ScanAtMatch | pytest_watch/config.py:47-55 | At a match, the output is the key group, then the cleaned items joined with backslash-`n`, then the rest of the text rewritten. |
| ArraySyntax.ScanWithoutBracket | pytest_watch/config.py:55 | Text without `[` goes through the substitution unchanged, from any position. |
| ArraySyntax.NormalizeWithoutBracket | pytest_watch/config.py:55 | A file text without `[` is read as written. |
| ArraySyntax.ScanCount | pytest_watch/config.py:55 | The substitution adds no character except those of the separator. |
| ArraySyntax.NormalizeAddsNoNewline | pytest_watch/config.py:53-55 | The rewrite never adds a newline. |
| ArraySyntax.ArrayTextRoundTrip | pytest_watch/config.py:48-52 | `[ a , b , ... ]`, with the items bare, in double quotes or in single quotes, yields the items `a, b, ...` again, in order. The empty array yields no items. |
| ArraySyntax.BlankArray | pytest_watch/config.py:48-53 | `[]`, and brackets holding only commas and whitespace, leave only the key group. |
| ArraySyntax.NormalizeArrayLine | pytest_watch/config.py:42-55 | The line `name = [ a , b ]` becomes `name = a\nb` (backslash and `n`), and the scan goes on after the `]`. |
| ArraySyntax.NestedBracketLine | pytest_watch/config.py:43-55 | `name = [ [x] ]` becomes `name = [x ]`: the lazy item group stops at the first `]`, and the item keeps the inner `[`. |
| ArraySyntax.SimpleArrayLine | pytest_watch/config.py:43-55 | `name = [x ]` becomes `name = x`. |
| ArraySyntax.NormalizeNotIdempotent | pytest_watch/config.py:55 | Rewriting `name = [ [x] ]` twice gives a different text from rewriting it once. |
| ArraySyntax.MultiLineItem | pytest_watch/config.py:48-52 | Item text spanning two lines, `x⏎ y`, is one item, kept whole with its newline. |
| ArraySyntax.MultiLineItemLine | pytest_watch/config.py:43-55 | `name = [x⏎ y]` becomes `name = x⏎ y`: the real newline inside the item survives the rewrite. |
| MultiLineParser.Get | pytest_watch/config.py:21-25 | A value without a newline comes back unchanged. A value with one comes back as two or more newline-free lines whose newline join is the value. A missing option fails. |
| MultiLineParser.GetLines | pytest_watch/config.py:21-25 | Newline-free lines stored joined with newlines come back as exactly those lines. |
| MultiLineParser.BracketArrayReadsAsScalar | pytest_watch/config.py:23-25 | A rewritten bracket array whose items hold no newline has no newline, so `get` gives it back as one text. |
| MultiLineParser.Paths | pytest_watch/config.py:28-29 | A single path is read as a one-element list. |
| MultiLineParser.FirstUnopenable | pytest_watch/config.py:31-38 | This is the first name that does not open: every name before it opens. |
| MultiLineParser.ReadEffects | pytest_watch/config.py:27-38 | The calls one `read` makes when every `read_string` returns. `ReadTrace`, `ReadAllOpen` and `ReadFirstUnopenable` state their shape. |
| MultiLineParser.ReadTrace | pytest_watch/config.py:27-38 | Files are read in order, each once, with normalised content. Every file before the first that does not open is read as a string, and the fallback comes right at that file: it is the last call, it passes the whole list, and it happens exactly when some file does not open. |
| MultiLineParser.ReadAllOpen | pytest_watch/config.py:31-58 | When every file opens, each file is read as a string, in order, and the fallback is never taken. |
| MultiLineParser.ReadFirstUnopenable | pytest_watch/config.py:35-38 | When the first file does not open, the only call is the fallback read of the whole list. |
| MultiLineParser.MultiLineConfigParser.constructor | pytest_watch/config.py:141 | A new parser has made no call into the library. |
| MultiLineParser.MultiLineConfigParser.Read | pytest_watch/config.py:27-58 | The loop makes exactly the calls of `ReadEffects`, appended to the calls made before. |
| Collect.CollectConfig.constructor | pytest_watch/config.py:77-78 | No path is recorded yet. |
| Collect.IniFile | pytest_watch/config.py:81-86 | The ini file from either attribute spelling; `PytestCmdlineMain` and `PathOnlyFromHook` state how it is used. |
| Collect.Truthy | pytest_watch/config.py:87 | Python truthiness of the ini file: set and not empty. `PytestCmdlineMain` stops exactly on it, and `NoConfigNoChange` covers `if not config_path` (line 138). |
| Collect.CollectConfig.PytestCmdlineMain | pytest_watch/config.py:80-89 | Stops the run exactly when the ini file is truthy, and then records it. Otherwise the recorded path is unchanged. |
| Collect.Stopped | pytest_watch/config.py:87-99 | The hook saw a truthy ini file and raised StopCollect, which line 98 catches. `PathOnlyFromHook` states the path that results. |
| Collect.CollectOutcome | pytest_watch/config.py:92-107 | The outcome of one run. `PathOnlyFromHook` and `ExitCodeMapping` state it case by case. |
| Collect.PathOnlyFromHook | pytest_watch/config.py:96-107 | A path comes back exactly when the hook stopped the run, and it is the ini file. |
| Collect.ExitCodeMapping | pytest_watch/config.py:101-107 | The interrupted code becomes KeyboardInterrupt. Every other code outside the two good ones becomes CollectError. The good codes give the unset path. |
| Collect.RunPytestCollect | pytest_watch/config.py:92-107 | The runner gets the arguments followed by `--collect-only`. The result is the outcome `CollectOutcome` assigns to what the runner does. |
| Outcomes.CaughtBySilentAttempt | pytest_watch/config.py:115 | The families `except (KeyboardInterrupt, Exception, SystemExit)` catches. `RetryPolicy` and `UncaughtPropagates` state the retry built on it. |
| Collect.Discovery | pytest_watch/config.py:110-126 | The retry policy of `_collect_config`. `RetryPolicy` and `UncaughtPropagates` state it. |
| Collect.RetryPolicy | pytest_watch/config.py:110-126 | There are one or two runs, each with `--collect-only`. Without `silent` there is exactly one unsilenced run. With `silent`, a silenced run that raises a caught exception is always followed by one warning and an unsilenced run whose outcome is the result; a silenced run that returns or raises anything else is the only run. |
| Collect.UncaughtPropagates | pytest_watch/config.py:112-116 | A base exception outside the caught families ends discovery after the first run. |
| Collect.CollectConfigPath | pytest_watch/config.py:110-126 | Outcome, runs and warnings are those of the retry policy `Discovery`. |
| Merge.ConfigName | pytest_watch/config.py:149 | The section name, prefixed with `--`, is the command-line name. |
| Merge.ItemsOf | pytest_watch/config.py:162-165 | What `extend` (a list) or `append` (a text) adds. `MergedValue` states the result. |
| Merge.FromConfig | pytest_watch/config.py:169 | `get`'s result assigned as it is. `MergedValue` states the result. |
| Merge.MergeKey | pytest_watch/config.py:146-169 | One turn of the loop. `CliPrecedence`, `NonEmptyListKept` and `MergedValue` state it. |
| Merge.ArgTruthy | pytest_watch/config.py:152 | Python truthiness of a command-line value. `CliPrecedence` and `NonEmptyListKept` state the precedence built on it. |
| Merge.CliPrecedence | pytest_watch/config.py:146-169 | Only a falsy `--option` that the section holds can change. The turn fails exactly for a flag whose stored text holds a newline or is not boolean. |
| Merge.NonEmptyListKept | pytest_watch/config.py:152-153 | A non-empty list from the command line is never extended. |
| Merge.MergedValue | pytest_watch/config.py:159-169 | An empty list receives the stored text's newline-free lines, whose newline join is that text (extended for a list, appended for a text). A flag receives `getboolean` of it, and fails when it holds a newline. Any other falsy value receives `get`'s result. |
| Merge.MergeKeys | pytest_watch/config.py:146-169 | The loop never adds or removes an option, and it never touches an option it does not walk over. |
| Merge.FirstFailure | pytest_watch/config.py:166-167 | This is the first option whose turn fails: every turn before it succeeds. |
| Merge.MergeKeysEffect | pytest_watch/config.py:146-169 | Options before the first failure get their merged value. That option and every later one keep their value. The loop fails exactly when some turn fails. |
| Merge.MergeOutcome | pytest_watch/config.py:129-171 | `merge_config` after discovery. `FalseOnlyOnDiscoveryFailure` and `NoConfigNoChange` state it. |
| Merge.FalseOnlyOnDiscoveryFailure | pytest_watch/config.py:133-136 | False exactly when discovery raised KeyboardInterrupt or CollectError, and then nothing changes. The option set is always kept. |
| Merge.NoConfigNoChange | pytest_watch/config.py:138-144 | Without an ini file or without the section, the result is True and nothing changes. |
| Merge.IgnoreScenario | pytest_watch/config.py:160-165 | `--ignore` receives the single item `a\nb` from the rewritten `[a, b]`. |
| Merge.Arguments.Valid | pytest_watch/config.py:129-146 | The `args` dictionary: distinct option names, each with a value. `MergeConfig` and `MergeSection` keep it. |
| Merge.MergeConfig | pytest_watch/config.py:129-171 | The result and the options left behind are those of `MergeOutcome` on what discovery found. The messages printed are the verbose notice and then the retry warning. The option names are unchanged. |
| Merge.MergeSection | pytest_watch/config.py:146-169 | The in-place loop leaves the options, and its failure, as `MergeKeys` says. |
| Merge.MergeOption | pytest_watch/config.py:147-169 | One option is updated in place as `MergeKey` says. When `getboolean` fails, nothing changes. |

## Left out

- **The test runner.** `pytest.main` and plugin registration are parameters: `host` maps each invocation to the hook call it makes and how it ends.
  - The model assumes a StopCollect raised by the hook reaches line 98.
  - The two attribute spellings of the runner's configuration object are a two-variant datatype.
- **`silence()` and printed text.** `silence()` (from `pytest_watch/util.py`, which is not part of this model) is only the `silenced` flag of an invocation. What is printed is recorded as `Notice` values; the text itself is left out.
- **File I/O.** Opening and reading files, and the `encoding` argument, are left out. The map `files` says which names open and what they hold.
- **The parser library.** Its parsing of `read_string` text, continuation lines, interpolation, the DEFAULT section, and the skipping of unreadable files in its own `read` are left out.
  - `parse` stands for the library's reading of the recorded calls. None stands for any exception raised while reading, shown as `ParseError`.
  - `getBoolean` stands for `getboolean` applied to the stored text. None stands for its ValueError.
  - A multi-line stored value reaches `getboolean` through the overridden `get` as a list, and `getboolean` then fails. The model gives this failure, an AttributeError in the source, the same outcome as a non-boolean text. `getBoolean` is only ever applied to newline-free text.
- MultiLineParser.ReadEffects: lists the calls of `read` as if every `read_string` (line 58) returned. In the source, a `read_string` that raises, for a file without a section header or with a parse error, ends `read` at once: no later file is opened and there is no fallback. The model leaves that exception to `parse`, which stands for the library's reading of the whole trace and returns None when any call of it raises. `merge_config` reads a single path (line 142), and for one path the call that raises is the last call of the trace, so its outcome is the same.
- **The forwarding at line 22.** Line 22 passes `raw`, `vars` and `fallback` to the library's `get` positionally. Whether the library's signature accepts this is not modelled; `Get` behaves as a library `get` that looks the option up.
- **Exit-code values.** The values of `EXIT_OK`, `EXIT_NOTESTSCOLLECTED` and `EXIT_INTERRUPTED` (from `pytest_watch/constants.py`, not part of this model) are the parameter `ExitCodes`.
- **Python 2.** The Python 2 import fallback (lines 9-12) is left out.
- **Aliasing in `extend`/`append`.** `extend`/`append` mutate the list object held in the dictionary. The model gives the option a new list value, so it does not capture aliasing of that list object by other holders.
- **Types.** A command-line value is a flag, a list of texts, a text or None. Other Python types are left out. Truthiness of the ini file is "set and not the empty text".
- **`continue` statements.** The loop body of `merge_config` is the method `MergeOption`, whose early returns are the loop's `continue` statements.
- Merge.MergeKey: looks the option up by the name as written after `--`. The parser library's `optionxform` lower-cases option names in `has_option` and `get` (lines 156, 161, 169), so a mixed-case `--Name` finding the section's `name` is not modelled.
- **`Get` on a missing option.** A missing option makes `Get` return None. In the source this is an exception; `merge_config` never reaches it, because it checks `has_option` first.
