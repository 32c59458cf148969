# Firebot chat command management and slots wager engine, in Dafny

This project models two chat-triggered parts of the Firebot streaming bot and proves properties of them.

**The `!command` built-in command** (`backend/chat/commands/builtin/commandManagement.js`) lets moderators edit custom commands from chat. It has five subcommands: `add`, `response`, `cooldown`, `restrict` and `remove`. The model has:

- the trigger/argument separator `seperateTriggerFromArgs`, including its quoted-phrase regular expression, which is rewritten as an explicit leftmost scanner and proved equal to the regex's match semantics;
- the permission mapper `mapPermArgToGroups`, with its `switch` fall-through;
- the handler `onTriggerEvent`, as a `CommandStore` class whose `commands` field each subcommand reassigns. Each subcommand is proved against a pure specification function on the store's value.

The JavaScript helpers the handler leans on are modelled on strings and exact integers:

- `trim` over the ECMAScript white-space and line-terminator set;
- `join(" ")` and `split(" ")`;
- `String.prototype.replace` with a string pattern (the first occurrence);
- `isNaN` via the `StringNumericLiteral` grammar;
- `parseInt`, including its `0x` prefix, returning NaN or an exact integer (not a double).

**The slots `!spin` command** (`backend/games/builtin/slots/spin-command.js`) runs the wager transaction:

- admission checks in a fixed order: lock, cooldown, amount, min and max bounds, balance;
- the anti-reentrancy lock and the cooldown cache;
- debit, role-weighted success chance, roll, credit, and release of the lock;
- `purgeCaches`.

The two module-level caches are the fields of a `SpinCommand` class. The ledger is a `CurrencyLedger` class. The handler is proved against the pure function `SpinSpec`.

Collaborators are inputs:

- the currency database's answers, and whether each call throws;
- the team, custom and platform role lookups;
- the slot machine's number of successful rolls;
- the clock, in whole seconds.

Files:

- `wrappers.dfy`: `Option`.
- `js_strings.dfy`: JavaScript string operations.
- `js_numbers.dfy`: `parseInt`, the `isNaN` coercion test, decimal printing.
- `trigger_args.dfy`: `seperateTriggerFromArgs`.
- `permissions.dfy`: `mapPermArgToGroups`.
- `command_management.dfy`: the `!command` handler.
- `slots_spin.dfy`: the `!spin` handler.

### Behaviours of the code worth knowing

- **No unescaping.** The quoted trigger is taken verbatim: an escaped quote `\"` inside it keeps its backslash. Nothing is unescaped.
- **"Could not find a command" never fires.** The handler tests `Array.find`'s result with `=== null`, but `find` returns `undefined` for a missing command. So:
  - `response`, `cooldown` and `restrict` on a missing trigger throw a `TypeError` when they dereference `undefined`. Nothing is saved and nothing is replied (`NotFoundNeverReplied`).
  - `remove` on a missing trigger still reports success (`RemoveAlwaysSucceeds`).
- **`response` does not see its own effects.** It counts chat effects by `id === "firebot:chat"` but appends a new one keyed by `type`. A later `response` does not count that effect, so it appends again instead of editing it (`RepeatedResponseAppends`).
- **A command created by `add` cannot be edited by `response`.** `add` stores `effects` as a plain array, while `response` reads `effects.list`, so `response` throws on such a command.
- **A doubled space stores a NaN cooldown.** `isNaN("")` is false, because `Number("")` is 0, but `parseInt("")` is NaN. In `cooldown !t 5  6` the split gives `5`, an empty word and `6`, so the check passes and the user cooldown is saved as NaN (`DoubledSpaceStoresNaN`, `EmptyTokenStoresNaN`). A word such as `.5` passes `isNaN` and parses to NaN the same way. The cooldown then is not a number of seconds at all, and the clamp to 0 does not catch it.
- **A credit failure keeps the lock.** The credit call at `spin-command.js:170` is outside any `try`. When it throws, the handler leaves before `activeSpinners.del`, so the user stays locked until `purgeCaches` (`CreditFailureLocksUser`). So on this path, unlike every other exit, the lock is not released.

## Model

| member | source | states |
|---|---|---|
| JsStrings.Trim | backend/chat/commands/builtin/commandManagement.js:13 | `trim()`: the result has no white space at either end and is a slice of the input with only white space cut off on both sides |
| JsStrings.TrimStart | backend/chat/commands/builtin/commandManagement.js:13 | leading white space removed: the result is a suffix, the cut part is all white space, the result starts with non-white space or is empty |
| JsStrings.LeadingBlanks | backend/chat/commands/builtin/commandManagement.js:13 | counts the white space a string starts with: all of it is white space and the next character is not |
| JsStrings.TrailingBlanks | backend/chat/commands/builtin/commandManagement.js:13 | counts the white space a string ends with: all of it is white space and the character before it is not |
| JsStrings.LeadingBlanksBefore | backend/chat/commands/builtin/commandManagement.js:16 | white space placed before a string that starts with a non-blank is exactly its leading blanks |
| JsStrings.TrimOfTrimmed | backend/chat/commands/builtin/commandManagement.js:15 | trimming a trimmed string changes nothing |
| JsStrings.TrimLeadingBlanks | backend/chat/commands/builtin/commandManagement.js:16 | white space before a trimmed string is removed by `trim()` |
| JsStrings.Join | backend/chat/commands/builtin/commandManagement.js:7 | `join(" ")` of no words is empty, of one word is that word, and of more is the first word, a space, then the join of the rest |
| JsStrings.JoinStartsWithHead | backend/chat/commands/builtin/commandManagement.js:7 | the joined string starts with the first word, so `"` at its head comes from `args[1]` |
| JsStrings.IndexOfChar | backend/chat/commands/builtin/commandManagement.js:248 | finds the first occurrence of a character at or after a position, or reports that none exists |
| JsStrings.IndexOfCharFinds | backend/chat/commands/builtin/commandManagement.js:248 | the search returns the first position holding the character |
| JsStrings.Split | backend/chat/commands/builtin/commandManagement.js:248 | `split(" ")` yields at least one piece and no piece contains the separator |
| JsStrings.FirstSpace | backend/chat/commands/builtin/commandManagement.js:248 | in space-joined words, the first space ends the first word and the rest is the join of the others |
| JsStrings.SplitJoin | backend/chat/commands/builtin/commandManagement.js:248 | splitting words joined by a space gives the words back when none contains a space |
| JsStrings.JoinSplit | backend/chat/commands/builtin/commandManagement.js:248 | joining the pieces of `split(" ")` with spaces gives the string back, for every string |
| JsStrings.IndexOfFrom | backend/chat/commands/builtin/commandManagement.js:16 | the first occurrence of a substring at or after a position, with none before it |
| JsStrings.ReplaceFirst | backend/chat/commands/builtin/commandManagement.js:16 | `replace` with a string pattern leaves the string alone when the pattern is absent, and otherwise rewrites exactly the leftmost occurrence: everything before and after it is kept |
| JsStrings.ReplaceAtFront | backend/chat/commands/builtin/commandManagement.js:16 | a pattern at the very front is the occurrence `replace` rewrites, and the rest is kept |
| JsStrings.ToLowerAscii | backend/chat/commands/builtin/commandManagement.js:31 | lower-casing keeps the length and maps each character |
| JsNumbers.LeadingDigits | backend/chat/commands/builtin/commandManagement.js:267-268 | the longest prefix of radix digits, stopping at the first non-digit as `parseInt` does |
| JsNumbers.NatDigits | backend/chat/commands/builtin/commandManagement.js:267-268 | a natural number prints as a non-empty string of decimal digits |
| JsNumbers.NatDigitsValue | backend/chat/commands/builtin/commandManagement.js:267-268 | reading printed decimal digits gives the number back |
| JsNumbers.DecimalStringHasNoSpace | backend/chat/commands/builtin/commandManagement.js:248 | a printed integer contains no space, so it stays one word under `split(" ")` |
| JsNumbers.ParseIntDecimal | backend/chat/commands/builtin/commandManagement.js:267-268 | `parseInt` of an integer written in decimal gives that integer (print/parse round trip) |
| JsNumbers.LeadingDigitsStop | backend/chat/commands/builtin/commandManagement.js:267-268 | the digit run `parseInt` reads stops exactly where the digits stop |
| JsNumbers.ParseIntStopsAtNonDigit | backend/chat/commands/builtin/commandManagement.js:267-268 | `parseInt` reads a decimal integer and ignores any tail that does not start with a digit or make a `0x` prefix (`12abc` is 12) |
| JsNumbers.ParseIntNonNumeric | backend/chat/commands/builtin/commandManagement.js:267-268 | `parseInt` of blank text, or of text whose first non-blank is neither a digit nor a sign, is NaN |
| JsNumbers.DecimalIsNumeric | backend/chat/commands/builtin/commandManagement.js:249-250 | `isNaN` is false on an integer written in decimal |
| JsNumbers.IsNaNCoercedCases | backend/chat/commands/builtin/commandManagement.js:249-250 | `isNaN` is false on blank text and on `Infinity`, and true on text starting with anything but a digit, a sign, a point or `I` |
| TriggerArgs.BodyMatchesIff | backend/chat/commands/builtin/commandManagement.js:8 | the regex body `(?:[^"]\|(?:\\"))*` matches a span exactly when every quote in it is preceded by a backslash |
| TriggerArgs.ScanClose | backend/chat/commands/builtin/commandManagement.js:8 | scanning from an opening quote finds the accepted closing quote, or none exists |
| TriggerArgs.FindFrom | backend/chat/commands/builtin/commandManagement.js:8-9 | returns the leftmost opening position at or after a point that has a match |
| TriggerArgs.ScannedUnique | backend/chat/commands/builtin/commandManagement.js:8 | from one opening quote at most one match end exists |
| TriggerArgs.SpanAtIff | backend/chat/commands/builtin/commandManagement.js:8 | the scanner's acceptance coincides with the regex's look-behind, body and look-ahead |
| TriggerArgs.FindSpanIsLeftmostMatch | backend/chat/commands/builtin/commandManagement.js:8-11 | `exec` is null exactly when no span matches; otherwise the result is a match, the leftmost one, and unique for its start |
| TriggerArgs.QuotedTriggerExec | backend/chat/commands/builtin/commandManagement.js:8-9 | `exec` returns null exactly when nothing matches, and otherwise the text of a leftmost match |
| TriggerArgs.SeparateTriggerFromArgs | backend/chat/commands/builtin/commandManagement.js:4-26 | the remaining data is always trimmed; the trigger is `args[1]` verbatim, or, when `args[1]` starts with a quote and the expression matches, the trimmed matched phrase |
| TriggerArgs.UnquotedTrigger | backend/chat/commands/builtin/commandManagement.js:18-21 | without a leading quote the trigger is `args[1]` and the data is the trimmed rest joined by spaces |
| TriggerArgs.NoMatchFallsBack | backend/chat/commands/builtin/commandManagement.js:11-13 | whenever the expression matches nowhere in the joined words (unclosed, glued or escaped closing quote), the trigger is `args[1]` with its quote and the data is the trimmed later words |
| TriggerArgs.UnclosedQuoteFallsBack | backend/chat/commands/builtin/commandManagement.js:11-13 | with no quote after the opening one the result falls back to the unquoted split |
| TriggerArgs.JoinedOpeningQuote | backend/chat/commands/builtin/commandManagement.js:6-7 | a joined string starting with a quote means the first word starts with one |
| TriggerArgs.QuotedPrefixMatch | backend/chat/commands/builtin/commandManagement.js:8-9 | a leading `"t"` followed by the end or white space is the match, spanning exactly `t` |
| TriggerArgs.QuotedTriggerRoundTrip | backend/chat/commands/builtin/commandManagement.js:6-17 | joined words `"t" rest` give trigger `t` and data `trim(rest)` for any quote-free trimmed `t` |
| TriggerArgs.QuotedPhraseExample | backend/chat/commands/builtin/commandManagement.js:6-17 | `add "hi there" body` gives trigger `hi there` and data `body` |
| TriggerArgs.GluedQuoteExample | backend/chat/commands/builtin/commandManagement.js:8-13 | `add "foo"bar x` has no match, so the trigger is `"foo"bar`, quotes included, and the data `x` |
| Permissions.TierIndex | backend/chat/commands/builtin/commandManagement.js:38-45 | a tier label is found at its position in the `switch` |
| Permissions.Normalize | backend/chat/commands/builtin/commandManagement.js:31 | the compared word is trimmed, holds no upper-case ASCII letter and is no longer than the argument; an already trimmed lower-case word is unchanged |
| Permissions.NormalizeIgnoresCase | backend/chat/commands/builtin/commandManagement.js:31 | two arguments that lower-case alike normalise to the same word |
| Permissions.MapPermArgToGroups | backend/chat/commands/builtin/commandManagement.js:28-51 | absent or empty input is invalid (`false`); `all`/`everyone` in any case and spacing is unrestricted (`null`); otherwise a non-empty group list, either the trimmed input or a list ending with Streamer |
| Permissions.StreamerLast | backend/chat/commands/builtin/commandManagement.js:38-45 | every tier's fall-through ends with Streamer |
| Permissions.TiersNested | backend/chat/commands/builtin/commandManagement.js:38-45 | a lower tier's groups end with every higher tier's groups (fall-through nesting) |
| Permissions.TierLists | backend/chat/commands/builtin/commandManagement.js:38-45 | the groups of `sub`, `mod` and `streamer`, in push order |
| Permissions.NamedTiers | backend/chat/commands/builtin/commandManagement.js:31-45 | the normalized words `sub`, `mod` and `streamer` map to their tier lists |
| Permissions.CustomGroup | backend/chat/commands/builtin/commandManagement.js:46-47 | any other word maps to the single trimmed group, with its case kept |
| Permissions.ModExample | backend/chat/commands/builtin/commandManagement.js:31-45 | `Mod` maps to Moderators, Channel Editors, Streamer |
| CommandManagement.FindActiveFrom | backend/chat/commands/builtin/commandManagement.js:118-120 | `find` over the active commands yields the first active command with the trigger, or `undefined` when there is none |
| CommandManagement.FindActiveNeverNull | backend/chat/commands/builtin/commandManagement.js:210-211 | `find` never yields `null` |
| CommandManagement.CountTrigger | backend/chat/commands/builtin/commandManagement.js:165 | no stored command uses the trigger exactly when the count is zero |
| CommandManagement.CountTriggerAppend | backend/chat/commands/builtin/commandManagement.js:193 | saving a command adds one to its trigger's count and no other |
| CommandManagement.ChatEffectCount | backend/chat/commands/builtin/commandManagement.js:219 | the chat-effect count is zero exactly when no effect has the chat `id` |
| CommandManagement.ChatEffectCountAppend | backend/chat/commands/builtin/commandManagement.js:232-236 | appending an effect raises the count only when it has the chat `id` |
| CommandManagement.FirstChatEffect | backend/chat/commands/builtin/commandManagement.js:229 | `find` locates the first chat effect |
| CommandManagement.SetChatMessage | backend/chat/commands/builtin/commandManagement.js:229-230 | only the first chat effect's message changes |
| CommandManagement.TriggerIsTaken | backend/chat/commands/builtin/commandManagement.js:165 | a trigger is taken exactly when some stored command, active or not, has it |
| CommandManagement.AppendedChatEffect | backend/chat/commands/builtin/commandManagement.js:232-235 | the appended effect carries the message under a `firebot:chat` `type` key, and is not counted as a chat effect, which is keyed by `id` |
| CommandManagement.PermissionFor | backend/chat/commands/builtin/commandManagement.js:310-327 | no restriction exactly for `all`/`everyone`; otherwise a group permission holding exactly the mapped groups |
| CommandManagement.NewCommand | backend/chat/commands/builtin/commandManagement.js:173-191 | the saved command has the trigger, is active and unrestricted, scans the whole message exactly when the trigger does not start with `!`, and holds one chat effect, as a plain array, carrying the message |
| CommandManagement.AddSpec | backend/chat/commands/builtin/commandManagement.js:157-199 | added exactly when there is a message and the trigger is free; the new command is active, scans the whole message unless the trigger starts with `!`, has zero cooldowns, no restriction and one chat effect; it is appended and nothing else changes; every refusal changes nothing |
| CommandManagement.EditResponse | backend/chat/commands/builtin/commandManagement.js:219-239 | updated only when the effects are a `list` with at most one chat effect, changing only that command's effects; otherwise refused or thrown with nothing changed |
| CommandManagement.ResponseSpec | backend/chat/commands/builtin/commandManagement.js:201-246 | a refusal of `response` changes nothing |
| CommandManagement.ClampNegative | backend/chat/commands/builtin/commandManagement.js:270-276 | negative values become 0, others are kept, NaN stays NaN |
| CommandManagement.CooldownTokensRejoin | backend/chat/commands/builtin/commandManagement.js:248 | the cooldown tokens are at least one, none holds a space, and joined with spaces they give the trimmed data |
| CommandManagement.CooldownSpec | backend/chat/commands/builtin/commandManagement.js:247-290 | a refusal of `cooldown` changes nothing |
| CommandManagement.RestrictSpec | backend/chat/commands/builtin/commandManagement.js:291-338 | a refusal of `restrict` changes nothing |
| CommandManagement.RemoveByTrigger | backend/chat/commands/builtin/commandManagement.js:350 | exactly the commands with other triggers remain, and none has the trigger |
| CommandManagement.RemoveSpec | backend/chat/commands/builtin/commandManagement.js:339-356 | a refusal of `remove` changes nothing |
| CommandManagement.HandleSpec | backend/chat/commands/builtin/commandManagement.js:135-153 | fewer than two words or an empty trigger earns only the usage reply; any refusal leaves the store unchanged |
| CommandManagement.UnknownSubcommandIgnored | backend/chat/commands/builtin/commandManagement.js:155-358 | a word other than the five subcommands never changes the store, for every store and words: usage reply or, past the first checks, no reply |
| CommandManagement.NotFoundNeverReplied | backend/chat/commands/builtin/commandManagement.js:210-217 | the "could not find a command" reply is never given, on any input |
| CommandManagement.ResponseNeverNotFound | backend/chat/commands/builtin/commandManagement.js:210-217 | since `find` never yields `null`, `response` never replies "not found" |
| CommandManagement.CooldownNeverNotFound | backend/chat/commands/builtin/commandManagement.js:258-265 | since `find` never yields `null`, `cooldown` never replies "not found" |
| CommandManagement.RestrictNeverNotFound | backend/chat/commands/builtin/commandManagement.js:301-308 | since `find` never yields `null`, `restrict` never replies "not found" |
| CommandManagement.CooldownSpecFromTokens | backend/chat/commands/builtin/commandManagement.js:248-281 | with at least three words, when the first two cooldown tokens pass `isNaN` and parse to integers, the parsed global and user cooldowns are set, negatives raised to 0, on the found command only; further tokens are ignored |
| CommandManagement.CooldownAcceptedIff | backend/chat/commands/builtin/commandManagement.js:248-281 | with data, at least two tokens and a found command, `cooldown` is accepted exactly when neither of the first two tokens is NaN to `isNaN`, and otherwise earns the usage reply with nothing changed |
| CommandManagement.EmptyTokenStoresNaN | backend/chat/commands/builtin/commandManagement.js:248-281 | an empty second token passes `isNaN` but parses to NaN, so the user cooldown is stored as NaN |
| CommandManagement.DoubledSpaceStoresNaN | backend/chat/commands/builtin/commandManagement.js:248-281 | `cooldown !t 5  6`, with a doubled space, stores global 5 and user NaN |
| CommandManagement.RestrictSpecOutcome | backend/chat/commands/builtin/commandManagement.js:310-331 | non-empty data never yields the invalid-group reply; on a found command the permission becomes none or the mapped groups |
| CommandManagement.DuplicateAddRejected | backend/chat/commands/builtin/commandManagement.js:165-171 | adding the same trigger again is refused, and the store holds that trigger once |
| CommandManagement.ChatEffectCountSameIds | backend/chat/commands/builtin/commandManagement.js:219 | the count depends only on the effects' ids |
| CommandManagement.ResponseEdit | backend/chat/commands/builtin/commandManagement.js:221-230 | with more than one chat effect it refuses and changes nothing; with exactly one, only its message changes and one chat effect remains |
| CommandManagement.RepeatedResponseAppends | backend/chat/commands/builtin/commandManagement.js:228-236 | with no chat effect, two `response`s append two `type`-keyed effects instead of editing the first one |
| CommandManagement.AddedCommandRejectsResponse | backend/chat/commands/builtin/commandManagement.js:173-230 | `response` on a command just saved by `add` throws and changes nothing, because `add` stores a plain array |
| CommandManagement.CooldownWords | backend/chat/commands/builtin/commandManagement.js:248 | two printed integers split back into those two words |
| CommandManagement.CooldownFromDecimals | backend/chat/commands/builtin/commandManagement.js:247-290 | `cooldown t g u` sets global `g` and user `u`, negatives raised to 0, on the first active command with the trigger |
| CommandManagement.CooldownNeedsTwoNumbers | backend/chat/commands/builtin/commandManagement.js:248-256 | a single number earns the usage reply and changes nothing |
| CommandManagement.RestrictSetsPermission | backend/chat/commands/builtin/commandManagement.js:291-338 | from chat the invalid-group reply never fires; on a found command `all`/`everyone` sets no restriction and any other word sets the mapped groups, changing nothing else |
| CommandManagement.TriggersStayUnique | backend/chat/commands/builtin/commandManagement.js:155-358 | a store in which no two commands share a trigger keeps that property through every subcommand, on any words |
| CommandManagement.RemoveAlwaysSucceeds | backend/chat/commands/builtin/commandManagement.js:339-356 | `remove` always reports success and leaves no command with the trigger, even when none was active |
| CommandManagement.CommandStore.FindActiveCommand | backend/chat/commands/builtin/commandManagement.js:118-120 | the loop returns what `find` over the active commands returns |
| CommandManagement.CommandStore.RemoveCustomCommandByTrigger | backend/chat/commands/builtin/commandManagement.js:350 | the store afterwards holds exactly the commands with other triggers, in order |
| CommandManagement.CommandStore.OnTriggerEvent | backend/chat/commands/builtin/commandManagement.js:113-362 | the reply and new store are those of the handler's specification |
| CommandManagement.CommandStore.Add | backend/chat/commands/builtin/commandManagement.js:156-200 | follows the `add` specification |
| CommandManagement.CommandStore.Response | backend/chat/commands/builtin/commandManagement.js:201-246 | follows the `response` specification, including the throw on a missing command |
| CommandManagement.CommandStore.SetCooldown | backend/chat/commands/builtin/commandManagement.js:247-290 | follows the `cooldown` specification |
| CommandManagement.CommandStore.Restrict | backend/chat/commands/builtin/commandManagement.js:291-338 | follows the `restrict` specification |
| CommandManagement.CommandStore.Remove | backend/chat/commands/builtin/commandManagement.js:339-356 | follows the `remove` specification |
| SlotsSpin.OnCooldownAt | backend/games/builtin/slots/spin-command.js:63-64 | a user without a cooldown entry is never on cooldown; a user on cooldown has at least one second left |
| SlotsSpin.BoundOn | backend/games/builtin/slots/spin-command.js:78-90 | a missing, zero or negative wager bound is switched off; an active bound is at least 1 |
| SlotsSpin.FetchedBalance | backend/games/builtin/slots/spin-command.js:99-105 | a read that throws counts as 0; otherwise the stored balance, 0 for an unknown user |
| SlotsSpin.ArmedCooldowns | backend/games/builtin/slots/spin-command.js:116-120 | with a positive cooldown setting the user's entry becomes now plus the cooldown, putting the user on cooldown; otherwise the cache is unchanged |
| SlotsSpin.ArmingKeepsOthers | backend/games/builtin/slots/spin-command.js:116-120 | arming the cooldown leaves every other user's entry as it was |
| SlotsSpin.Admission | backend/games/builtin/slots/spin-command.js:56-112 | admitted exactly when every check passes; each refusal is returned exactly when its check fails and every earlier one passes, in the order lock, cooldown (with the time left), amount at least 1, minimum, maximum, balance (a failed read counting 0) |
| SlotsSpin.FirstMatchingOverride | backend/games/builtin/slots/spin-command.js:150-155 | the percent of the first override in list order whose role the user holds, or none when no override matches |
| SlotsSpin.SuccessChance | backend/games/builtin/slots/spin-command.js:131-159 | 50 without chance settings; the base percent when the team-role lookup throws or no override's role is held; otherwise the percent of the first override, in list order, whose role is held |
| SlotsSpin.Winnings | backend/games/builtin/slots/spin-command.js:168 | the floor of wager × rolls × multiplier; not negative for a non-negative wager and multiplier; zero with no successful roll |
| SlotsSpin.SpinSpec | backend/games/builtin/slots/spin-command.js:49-184 | a non-amount call gets the usage reply and a refused spin its refusal, with nothing changed; an admitted spin ends in a failed debit exactly when the debit throws, in a failed credit exactly when only the credit throws, and completes otherwise; it arms the cooldown, releases the lock on every path but a failed credit, keeps balances on a failed debit and changes the user's balance by winnings minus wager on completion |
| SlotsSpin.Wager | backend/games/builtin/slots/spin-command.js:114-181 | the admitted part: its ending is decided by which ledger call throws; it arms the cooldown; it holds the lock only after a failed credit; it debits the wager only when the debit succeeds and credits the floor of the winnings only when both calls succeed |
| SlotsSpin.SpinningUserRefused | backend/games/builtin/slots/spin-command.js:56-61 | a locked user is refused as already spinning, nothing changed |
| SlotsSpin.ConcurrentSpinRefused | backend/games/builtin/slots/spin-command.js:56-114 | a second spin by a user whose first spin has already taken the lock is refused and changes nothing |
| SlotsSpin.FailedBalanceReadRefuses | backend/games/builtin/slots/spin-command.js:98-112 | a balance read that throws always ends in a refusal with nothing changed |
| SlotsSpin.NotEnoughExample | backend/games/builtin/slots/spin-command.js:107-112 | balance 50 and wager 100: refused, no lock, no cooldown, no debit |
| SlotsSpin.DebitFailureKeepsCooldown | backend/games/builtin/slots/spin-command.js:116-129 | when an admitted spin's debit throws, it ends in a failed debit with the balance as it was and the lock released, but the cooldown armed |
| SlotsSpin.RepeatWithinCooldownRefused | backend/games/builtin/slots/spin-command.js:63-120 | after an admitted spin whose debit throws or whose credit succeeds, the same user is refused for cooldown throughout the cooldown window, told a positive time no longer than the cooldown |
| SlotsSpin.CreditFailureLocksUser | backend/games/builtin/slots/spin-command.js:170-181 | when an admitted spin's debit succeeds and its credit throws, it ends in a failed credit and every later spin by that user is refused as already spinning |
| SlotsSpin.SpinBalanceChange | backend/games/builtin/slots/spin-command.js:122-170 | when neither ledger call throws, an admitted spin completes and changes only the user's balance, by winnings minus wager |
| SlotsSpin.PurgedCachesAdmitAgain | backend/games/builtin/slots/spin-command.js:198-201 | after a purge no spin is refused as already spinning or on cooldown |
| SlotsSpin.WinningsExample | backend/games/builtin/slots/spin-command.js:168 | wager 10, two rolls, multiplier 1.5 win 30 |
| SlotsSpin.FirstOverrideWins | backend/games/builtin/slots/spin-command.js:131-155 | overrides are taken in list order: mod 70 before sub 60 gives 70, the reverse gives 60 |
| SlotsSpin.CurrencyLedger.GetUserCurrencyAmount | backend/games/builtin/slots/spin-command.js:100-105 | the balance, or no value when the read throws |
| SlotsSpin.CurrencyLedger.AdjustCurrencyForUser | backend/games/builtin/slots/spin-command.js:122-129 | adds the amount to the user's balance, or throws and changes nothing |
| SlotsSpin.ComputeSuccessChance | backend/games/builtin/slots/spin-command.js:131-159 | the loop with `break` computes the specified chance: 50 without chance settings, the base when the role lookup throws, else the first matching override or the base |
| SlotsSpin.SpinCommand.constructor | backend/games/builtin/slots/spin-command.js:16-17 | both caches start empty |
| SlotsSpin.SpinCommand.OnTriggerEvent | backend/games/builtin/slots/spin-command.js:42-185 | the outcome, caches and balances are those of the spin specification |
| SlotsSpin.SpinCommand.CheckAdmission | backend/games/builtin/slots/spin-command.js:56-112 | the checks, run in the handler's order and changing nothing, give the admission verdict of the specification |
| SlotsSpin.SpinCommand.RunWager | backend/games/builtin/slots/spin-command.js:114-181 | the admitted part (lock, cooldown, debit, roll, credit, unlock) leaves the state the specification gives |
| SlotsSpin.SpinCommand.PurgeCaches | backend/games/builtin/slots/spin-command.js:198-201 | both caches are empty afterwards, so no user is locked or on cooldown |

## Left out

- Chat replies are an outcome value. Their wording, `{username}`-style substitution, `secondsForHumans`, `commafy` and the sender identity are not modelled.
- The handler's `usage` lookup (`commandManagement.js:124-133`) only shapes reply text and is not modelled.
- `getAllCustomCommands`, `triggerIsTaken`, `saveCustomCommand` and `removeCustomCommandByTrigger` belong to the command manager, which is not part of this model. They are taken as:
  - a trigger is taken when any stored custom command has it;
  - saving a new command appends it;
  - saving an edited command writes it back in place;
  - removing drops every stored command with the trigger.
- A `TypeError` thrown inside the `!command` promise is modelled as a terminal outcome with nothing saved. The unresolved promise and the unhandled rejection are not modelled.
- JsStrings.ToLowerAscii: `toLowerCase` is modelled on ASCII letters only, because Dafny has no Unicode case mapping. Non-ASCII group names keep their case before the comparison with the tier words.
- Command triggers are compared by exact string equality, as `===` does. Unicode normalisation is not modelled.
- Active-command filtering reads `active` as a boolean. Other truthy values are not modelled.
- **Spin wager:** the spin subcommand only matches `\d+`, so the wager is an integer. The NaN path of `parseInt` is not reachable there and is not modelled.
- **Clock:** it is integer seconds, passed in with the request. The sub-second rounding of `moment().diff(..., 'seconds')` is not modelled.
- **Cooldown setting:** `cooldownSecs` is taken to be an integer.
- **NodeCache:** its TTL eviction and check periods are not modelled. A cooldown entry counts as active only while the clock is before its expiry, which is the test the handler itself makes.
- **Ledger:** a map from user to balance in the game's single currency. The currency id and the database's own persistence and atomicity are not modelled.
- **`getCurrencyById`** (`spin-command.js:172`) only names the currency in the reply and is not modelled. If it threw, that would also leave the lock held; the model shows this only for a credit failure.
- **Asynchronous interleaving:** each `await` point is not modelled as a place where another invocation can run. `ConcurrentSpinRefused` covers only a second spin that arrives after the first has taken the lock (`spin-command.js:114`). The lock is tested at `spin-command.js:56` but taken only at `:114`, after the `await` of the balance read at `:101`. So two spins by the same user can both pass the test and both be debited; the model does not show that race.
- **Role lookups:** the slot machine's random rolls and the role lookups are inputs. Of the three lookups only the team-role one is modelled as able to throw. The custom-role lookup is synchronous and returns a list, and the platform roles are taken as already mapped to role ids.
- JsNumbers.ParseInt: returns an exact, unbounded integer. JavaScript's `parseInt` returns a double, so digit strings above 2^53 are rounded and 309 or more digits give `Infinity`. `isNaN` accepts `Infinity`, so `!command cooldown t 1…1 5` with such a number stores `Infinity`, which the model does not show. `ParseIntDecimal` and `ParseIntStopsAtNonDigit` hold in JavaScript only for |n| ≤ 2^53.
- SlotsSpin.Winnings: computed on exact reals; JavaScript floating-point rounding of the product is not modelled.
- Registering and unregistering the spin command, and the game-settings lookup, are not modelled. The settings are a parameter of the handler.
