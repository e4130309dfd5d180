# concorde instruction engine in Dafny

concorde reads a file of tagging instructions and applies them to a notmuch mail store.
An instruction line has the form `<actions> -- <query>`. Each action token starts with a
sigil:

- `+a,b` adds the tags `a` and `b`.
- `-a` removes the tag `a`.
- `=by-subaddr(t)`, `=by-list-info(t)` and `=by-spam-status(t)` derive tags from headers
  or from bogofilter's verdicts.
- `%learn-spam(..)`, `%learn-ham(..)` and `%purge(..)` train bogofilter or do nothing.

The reader skips comment lines and blank lines. It warns about lines that are not
instructions. It reports a token with an unknown sigil and skips that line. Any other
exception ends the run.

This project models that engine as pure functions and proves what each step computes:

- `regex.dfy` is a small model of Python 2's `re`, covering `match`, `search` and
  `split` for the atoms the patterns use. The reported match is the lexicographically
  greatest way to consume the text, which is what the backtracking matcher finds first.
- `instruction_syntax.dfy` holds the four patterns of the instruction reader and its two
  `re.split` calls. Each is characterised by a plain predicate that does not mention the
  matcher.
- `action_patterns.dfy` does the same for the subaddress, `List-Id` and bogofilter
  verdict patterns of the handlers.
- `actions.dfy` holds the handlers. A message is its tag set and its headers.
- `instructions.dfy` holds the registry, the action-token parser, `perform_action`, the
  fold of a line's actions over the messages its query finds, one line of
  `run_instructions`, and the whole run.
- `findings.dfy` holds the two places where the code does not do what it evidently
  means to.

`Reading` selects how a line is read. `AsWritten` follows the code. `Intended` replaces
the two defects (see Findings). Everything else is shared between the two readings.

Some facts about the registry and the token parser that the model keeps:

- `by-spam-status` is registered in the `=` family, next to `by-subaddr` and
  `by-list-info` (concorde/instructions.py:15-19).
- `unlearn_spam` and `unlearn_ham` are defined in concorde/actions.py:110-114 but are not
  registered, so no token reaches them.
- A family name the registry does not know raises `KeyError` (concorde/instructions.py:81).
- A family token without a closed `(...)`, such as `=by-subaddr` or `=by-subaddr(x`,
  raises `TypeError` from `re.split` on the missing group 3 (concorde/instructions.py:80).
- The line loop catches only `ActionParseError` (concorde/instructions.py:130), so both of
  these exceptions end the run instead of skipping the line.

## Model

| member | source | states |
|---|---|---|
| Regex.MatchAtBest | concorde/instructions.py:106-114 | `match` reports the parse that backtracking finds first, the lexicographically greatest one, and fails only when no parse exists |
| Regex.SearchFromBest | concorde/actions.py:32 | `search` reports the preferred parse at the leftmost position that has a parse, and fails only when no position has one |
| InstructionSyntax.IsComment | concorde/instructions.py:7 | a line is a comment exactly when its first character that is not whitespace is `#` |
| InstructionSyntax.IsBlank | concorde/instructions.py:8 | a line is blank exactly when all of it is whitespace |
| InstructionSyntax.MatchInstr | concorde/instructions.py:9 | a line is an instruction exactly when it splits as newline-free actions, whitespace, `--`, whitespace and a query. The actions part ends at the last such separator. The query starts at the last position, after `--` and at least one whitespace character, that holds a character other than a newline; when the query has a character that is not whitespace, that is after all the whitespace following `--`. The query runs to the end of the physical line |
| InstructionSyntax.MatchAction | concorde/instructions.py:10 | a token rest matches exactly when it is non-empty and does not start with `(`. Group 1 runs up to the first `(`; group 3 is the text up to the first `)` after it, or is missing |
| InstructionSyntax.SplitArgs | concorde/instructions.py:71 | splitting on `\s*,\s*` gives the comma-separated fields, with the whitespace next to each comma removed and at least one field |
| InstructionSyntax.SplitArgsJoin | concorde/instructions.py:80 | fields without commas and without inner-edge whitespace survive a join with `,` followed by a split |
| InstructionSyntax.SplitBlanks | concorde/instructions.py:122 | splitting on `\s+` gives the pieces between whitespace runs, with an empty piece for whitespace at either end |
| InstructionSyntax.SplitBlanksAllWords | concorde/instructions.py:122 | the split gives only words exactly when the text is non-empty with no whitespace at either end; otherwise it contains an empty token |
| InstructionSyntax.Words | concorde/instructions.py:122 | the intended tokenizer gives the non-empty pieces between whitespace runs, in order, as `str.split()` does; none of them is empty or holds whitespace |
| InstructionSyntax.WordsJoin | concorde/instructions.py:122 | words joined with blanks and tokenized again come back unchanged |
| ActionPatterns.SearchSubaddr | concorde/actions.py:6 | the subaddress is found exactly when the text holds an address `x+sub@y`. It is the `sub` of the first such address, taking the last `+` there, and it is non-empty with no `@` and no whitespace |
| ActionPatterns.SearchListName | concorde/actions.py:7 | the list name is found exactly when the text holds `<name.rest>`. It is the `name` of the first one, non-empty and without `.` |
| ActionPatterns.IsSpamVerdict | concorde/actions.py:8 | a verdict says spam exactly when it contains `X-Bogosity:`, optional whitespace, then `Spam` |
| Actions.AddTags | concorde/actions.py:14-15 | adding the arguments one by one gives the old tags plus every argument |
| Actions.RemoveTags | concorde/actions.py:20-21 | removing the arguments one by one gives the old tags minus every argument |
| Actions.Tag | concorde/actions.py:11-15 | `tag` adds every argument and leaves the headers alone |
| Actions.Untag | concorde/actions.py:17-21 | `untag` removes every argument and leaves the headers alone |
| Actions.TagUntagInverse | concorde/actions.py:11-21 | untagging after tagging equals plain untagging, and tagging after untagging equals plain tagging |
| Actions.Subaddress | concorde/actions.py:30-43 | there is no subaddress when the header lookup fails or the header holds no subaddressed address; otherwise it is group 1 of the first match of the subaddress pattern in `Delivered-To` |
| Actions.TagBySubaddr | concorde/actions.py:23-49 | with a subaddress, it and the first argument become tags; without one the message is unchanged; headers never change |
| Actions.ListName | concorde/actions.py:56-67 | there is no list name when the lookup fails or `List-Id` holds no `<name.rest>`; otherwise it is group 1 of the first match of the list pattern in `List-Id` |
| Actions.TagByListHeaders | concorde/actions.py:51-73 | with a list name, it and the first argument become tags; otherwise the message is unchanged |
| Actions.DerivedIdempotent | concorde/actions.py:23-73 | a second call of either header handler changes nothing |
| Actions.TagBySpamStatus | concorde/actions.py:75-88 | message `i` gains the spam tag exactly when verdict line `i` says spam; past the end of the output it does not; nothing else changes |
| Instructions.RegistryShape | concorde/instructions.py:12-25 | the registry has exactly the sigils `+`, `-`, `=` and `%`; `+` and `-` are the simple actions `tag` and `untag`; `=` offers `by-subaddr`, `by-list-info` and `by-spam-status`; `%` offers `learn-spam`, `learn-ham` and `purge`, which are its only handlers |
| Instructions.ParseActionToken | concorde/instructions.py:48-86 | parsing a token gives one of these outcomes: `IndexError` exactly for the empty token; `ActionParseError` exactly for an unknown sigil; no descriptor exactly when nothing or `(` follows the sigil; otherwise a simple descriptor, a family descriptor, `TypeError` or `KeyError`, each exactly as the registry and groups dictate |
| Instructions.Handle | concorde/instructions.py:46 | one handler call keeps the headers; `tag` and `untag` add and remove the arguments; `by-subaddr` and `by-list-info` add the derived tag and the first argument when the header yields one, and nothing otherwise; `purge` changes nothing; only `untag` removes tags |
| Instructions.HandleIdempotent | concorde/instructions.py:46 | calling any per-message handler twice equals calling it once |
| Instructions.PerformAction | concorde/instructions.py:45-46 | the handler is applied to every message in order, with one result per message; a batch handler on a non-empty list is not modelled |
| Instructions.PerformActionAppend | concorde/instructions.py:45-46 | acting on a concatenation equals acting on each part and concatenating the results |
| Instructions.PerformActionIdempotent | concorde/instructions.py:45-46 | performing an action twice equals performing it once |
| Instructions.Tokens | concorde/instructions.py:122 | as written, the tokens are the pieces between whitespace runs, with an empty token exactly when the actions part has whitespace at an end; read as intended, they are the same pieces without the empty ones |
| Instructions.ParseTokens | concorde/instructions.py:89 | every token is parsed before the query runs; parsing fails at the first token that does not parse, and otherwise gives one descriptor or none per token |
| Instructions.Step | concorde/instructions.py:97 | with no messages, nothing happens; a per-message handler finishes with each message handled on its own; a missing descriptor raises `TypeError` exactly when there is a message to call it on; a batch handler on messages is the unmodelled case |
| Instructions.Fold | concorde/instructions.py:97 | read as intended, the actions run in turn; the line aborts only with `TypeError` from a missing descriptor when the query found messages, reaches the unmodelled case only through a batch handler, and finishes whenever every action is a per-message handler |
| Instructions.FoldAppend | concorde/instructions.py:97 | folding a concatenation of action lists equals folding the first list and then the second on its result |
| Instructions.FoldAsWritten | concorde/instructions.py:97 | the `reduce` as written agrees with the intended fold when there is at most one action or no message |
| Instructions.FoldOnEmpty | concorde/instructions.py:97 | with no messages every action list finishes without effect |
| Instructions.OnNones | concorde/instructions.py:97 | once the first action has run, the messages keep what it did. With no messages, or when every later action is `purge`, the line finishes. Otherwise the first later action that is not `purge` decides: a missing descriptor or a bogofilter handler raises `TypeError`, and any other handler raises `AttributeError` |
| Instructions.RunActions | concorde/instructions.py:88-97 | the two readings apply a line's actions alike when it has at most one action or the query finds nothing; with nothing found, the line finishes unchanged; a finished or aborted line keeps one message per message found |
| Instructions.ProcessInstruction | concorde/instructions.py:88-97 | an instruction runs its query and applies its actions to what the query finds exactly when every token parses; otherwise the first token that fails decides: an unknown sigil skips the line with that token, and any other failure is an uncaught crash |
| Instructions.ProcessLine | concorde/instructions.py:99-131 | a line is skipped as a comment, skipped as blank, warned about when it is no instruction, skipped on an unknown sigil, ended by an uncaught parse crash, or run on what its query finds, each exactly under the conditions the patterns give |
| Instructions.RunLines | concorde/instructions.py:99-131 | lines are handled in order and numbered from 1; the run goes through every line unless a line stops it, and then that line is the last one handled |
| Instructions.RunInstructions | concorde/instructions.py:99-131 | the same for the engine's own line processing. Each line's outcome is stated through `LineStep(reading, search)`, which the lemma `LineStepIs` rewrites to `ProcessLine` |
| Findings.EdgeBlankNeverRuns | concorde/instructions.py:122 | as written, a line whose actions part has whitespace at an end never reaches its query |
| Findings.IntendedNoIndexError | concorde/instructions.py:122 | read as intended, no line crashes on an empty token |
| Findings.EdgeLineAsWritten | concorde/instructions.py:122 | `+a  -- q` tokenizes to `+a` and an empty token, and the line crashes with `IndexError` |
| Findings.EdgeLineIntended | concorde/instructions.py:122 | read as intended, `+a  -- q` runs the single action `+a` on what `q` finds |
| Findings.ReduceStopsAfterFirst | concorde/instructions.py:97 | as written, on a non-empty message list, two tag-changing actions abort after the first with `AttributeError` |
| Findings.FoldPerMessage | concorde/instructions.py:97 | read as intended, per-message actions always finish, and each message ends up as if it had been processed alone |
| Findings.ReduceExample | concorde/instructions.py:97 | `+a +b` on one message adds only `a` as written, and both `a` and `b` as intended |

## Left out

- The notmuch database, `Query` and `search_messages` become a parameter, `search(n, q)`. It gives the messages query `q` finds when line `n` runs. Handlers return the messages they changed instead of writing to the store.
- The bogofilter subprocess becomes the list of verdict lines it would print, one per message.
- `learn_spam`, `learn_ham`, `unlearn_*` and `train_bgf` are not modelled. `train_bgf` feeds each message to bogofilter and then tests the names `add_tag` and `remove_tag`, which are not defined anywhere, before it would add `tag1` or remove `tag2`; on a message it would raise `NameError`. As the first action of a line these handlers receive one message where they iterate a list, and the line ends as `Unmodelled`.
- Instructions.OnNones: a bogofilter handler after the first action starts the bogofilter process before it fails to iterate `None`. Only the `TypeError` is modelled, not the process.
- Instructions.PerformAction: a batch handler (`by-spam-status`, `learn-spam`, `learn-ham`) dispatched on a non-empty message list gives `None`, not a model of the call. In the code that call passes one message where a list is expected.
- Instructions.Step: reaching a batch handler ends the line as `Unmodelled`, so the run's outcome after that point is not stated.
- Actions.TagBySubaddr: requires a non-empty argument list. Every parsed descriptor has one, because `re.split` always returns at least one field.
- Actions.TagByListHeaders: requires a non-empty argument list, for the same reason.
- Actions.TagBySpamStatus: requires a non-empty argument list, for the same reason.
- Logging and the text of the `ActionParseError` message are not modelled. A report keeps only the offending token.
- `process_file`, `__main__.py`, `offlineimaprc.py` and `setup.py` are not part of this model.
- Failures inside notmuch's `add_tag` and `remove_tag` (read-only database, tags over the length limit) are not modelled.
- `\s` is Python 2's byte-string whitespace. Strings are sequences of characters, with no encoding.

## Findings

| source | as written | input that shows it | evidently intended | confidence | as-written member | corrected member |
|---|---|---|---|---|---|---|
| concorde/instructions.py:122 | `re.split('\s+', m.group(1))` leaves an empty token when the actions part starts or ends with whitespace, and the line never reaches its query. Unless an earlier token fails first, `parse_action_token('')` raises an uncaught `IndexError` and the run ends | the line `+a  -- q` (two blanks before `--`): group 1 is `+a `, and the tokens are `+a` and the empty token | the whitespace-separated words of the actions part (`str.split()`) | not executed | Findings.EdgeLineAsWritten | Findings.EdgeLineIntended |
| concorde/instructions.py:97 | `reduce(lambda ms, act: perform_action(act, ms), actions, msgs)` hands each later action the list of the handlers' return values, which are all `None`. `purge` passes the `None`s on. When the query finds at least one message, the first later action that is not `purge` ends the run: a missing descriptor or a bogofilter handler raises `TypeError`, and any other handler raises `AttributeError`. The first action's changes stay | the line `+a +b -- q`, where `q` finds one message | every action applied in turn to the messages the query found | not executed | Findings.ReduceStopsAfterFirst | Findings.FoldPerMessage |
