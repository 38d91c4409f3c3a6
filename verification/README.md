# CyberArcadeBot coin store: a Dafny model

CyberArcadeBot is a Discord bot that tracks a coin balance per community
member. This project models the parts of it that hold logic:

- the `users` and `coin_gains` tables of the SQLite store and the queries of
  the `Database` class (`database.dfy`), with Python's `str(int)` and
  `int(str)` for the Discord ids kept as text (`decimal.dfy`);
- the `balance` command's scan of the "User Backpack" Google Sheet, in the
  current version (`sheet_commands.dfy`) and the older duplicate
  (`legacy_sheet_commands.dfy`), over a shared reference (`sheet_scan.dfy`);
- the reaction handler registry and the choice of handlers a reaction event
  runs (`reactions.dfy`);
- the role predicates used for permission checks (`permissions.dfy`).

Tables are immutable sequences of rows in table order, and every query is a
pure function of them. Every write returns the new table. Spreadsheet rows,
the "message could be fetched" outcome and the id the database assigns to a
new user row are all inputs.

The database code as written does not behave as its docstrings say. The
model follows the docstrings and notes each difference in `database.dfy`:
- Query parameters are passed bare instead of as tuples (bot/database.py:110, 122, 180, 200).
  sqlite3 binds the text `str(discord_id)` one character per parameter, so
  a lookup by any id whose text has more than one character (any id
  outside 0..9, such as 42 or -5) raises at line 122. A bare int
  is not a valid parameter at all, so the lookups by internal id (lines 147
  and 165) raise at line 110.
  `get_coin_gains` also passes its int `user_id` bare (line 180).
- `row := X is not None` binds a bool, so `row[0]` raises where the query
  finds a row (lines 138 and 156); where it finds none, the method returns
  `None`. Line 195 has the same pattern and would return the bool instead of
  an id once line 138 is fixed. See the finding below.
- The INSERT supplies no primary key (bot/database.py:200). The model takes a
  fresh id as a parameter, and that id must not already be in the table.
- `get_coin_gains` selects a parenthesised row value and builds `CoinGain`
  from five of its six fields (bot/database.py:178-183). The model returns
  the whole matching rows.

Assumptions about the Discord library, which is not part of this model:
- `str(member)` is `name#discriminator`.
- A `PartialEmoji` is custom exactly when it has an id.

## Model

| member | source | states |
|---|---|---|
| Decimal.Show | bot/database.py:122 | `str(n)` for an integer of at most 4300 digits is never empty and starts with a minus sign exactly when `n` is negative |
| Decimal.Parse | bot/database.py:148 | `int(text)` succeeds exactly on an optional minus sign followed by digits; a minus sign gives a value at most 0, none gives at least 0 |
| Decimal.ParseShow | bot/database.py:148 | `int(str(d)) == d` for every integer `d` of at most 4300 digits, so an id written as text reads back unchanged |
| Decimal.ShowInjective | bot/database.py:122 | distinct Discord ids have distinct texts, so a text lookup never confuses two users |
| Database.FirstMatch | bot/database.py:111-117 | `fetchall()[0]`: none exactly when no row matches, otherwise a matching row with no earlier match |
| Database.SelectUserUnchecked | bot/database.py:107-117 | `None` exactly when no row has the internal id, otherwise the first row that has it |
| Database.SelectUserChecked | bot/database.py:119-132 | `None` exactly when no row holds `str(discord_id)`, otherwise the first such row; several matches are not an error |
| Database.DuplicateRowsKeepFirst | bot/database.py:128-132 | once a Discord id has a row, appending any row (a duplicate included) leaves the checked lookup's answer unchanged |
| Database.GetUserTid | bot/database.py:134-141 | `None` exactly for an unregistered Discord id, otherwise the internal id of its first row |
| Database.GetUserTidAsWritten | bot/database.py:119-141 | the code as written never returns an id: it raises on ids of more than one character (line 122) and on registered ids (line 139), and returns `None` otherwise |
| Database.GetUserTidAsWrittenFailures | bot/database.py:122-141 | as written, the lookup raises exactly when the id is outside 0..9 or registered; the `row[0]` error happens exactly for registered one-digit ids; where it does not raise, it agrees with the docstring |
| Database.GetUserTidAsWrittenWitness | bot/database.py:138-139 | on the one-row table `(1, "7", 0)`, looking up 7 should give 1 but the code as written raises at `row[0]` |
| Database.GetUserTidAsWrittenBindingWitness | bot/database.py:122 | on the empty table, looking up 42 should give `None` but the code as written raises at the query: two bindings for one placeholder |
| Database.GetUserDiscordId | bot/database.py:143-150 | `None` exactly when no row has the internal id; otherwise the integer read from the first such row's id text, or an error when that text is not an integer |
| Database.GetBalanceDiscord | bot/database.py:152-159 | `None` for an unregistered Discord id, otherwise the coins column of its first row |
| Database.GetBalance | bot/database.py:161-168 | `None` for an unknown internal id, otherwise the coins column of its first row |
| Database.GainsOf | bot/database.py:178-181 | the gains kept are exactly the rows whose `user_id` is the given id, and no more rows than the table has |
| Database.GainsOfConcat | bot/database.py:178-183 | the selection keeps table order: selecting from `a + b` gives the selection from `a` followed by the selection from `b` |
| Database.GetCoinGains | bot/database.py:170-183 | the empty list for an unregistered user, otherwise exactly the gain rows carrying that user's internal id |
| Database.RegisterUser | bot/database.py:187-204 | a registered id leaves the table unchanged and returns its existing id; a new id appends exactly one row `(fresh id, str(d), 0)` and returns the fresh id |
| Database.RegisterThenLookup | bot/database.py:187-204 | the id returned equals what a later `get_user_tid(d)` returns, and the user then has a balance |
| Database.RegisterNewUserHasZeroCoins | bot/database.py:199-202 | a newly registered user has balance 0, looked up by Discord id and by internal id |
| Database.RegisterIdempotent | bot/database.py:195-197 | a second registration of the same id returns the same table and id, whatever fresh id it is offered |
| Database.RegisterFrame | bot/database.py:199-202 | registering one Discord id changes no other Discord id's internal id or balance |
| Database.RegisterPreservesValid | bot/database.py:27-31 | registration keeps internal ids unique, keeps each Discord id to one row (the check before the insert, not a schema constraint), and keeps every stored id text an integer |
| Database.RegisterPreservesTidsUnique | bot/database.py:28 | registration keeps internal ids unique, the schema's primary key |
| Database.DiscordIdRoundTrip | bot/database.py:143-150 | on any table whose internal ids are unique (duplicate Discord-id rows allowed), `get_user_discord_id(get_user_tid(d)) == d` |
| Database.DiscordIdRoundTripWithDuplicates | bot/database.py:130-132 | on a table holding Discord id 7 twice, the checked lookup gives the first row's id and the round trip still gives 7 |
| Database.GetUserDiscordIdTotalOnValid | bot/database.py:147-148 | on a valid table, `get_user_discord_id` never raises |
| SheetScan.LastMatch | bot/sheet_commands.py:45-50 | reference scan from the bottom: none exactly when no row matches, otherwise the balance of a matching row with no matching row after it |
| SheetScan.LastMatchSnoc | bot/sheet_commands.py:48-50 | an appended row decides the balance if it matches and changes nothing otherwise |
| SheetScan.LastMatchAt | bot/sheet_commands.py:45-50 | the last matching row determines the balance found |
| SheetScan.ShortRowIgnored | bot/sheet_commands.py:46 | a row of fewer than two cells, wherever it is inserted, does not change the balance found |
| SheetScan.ReplyOfLastMatch | bot/sheet_commands.py:54-57 | error text when nothing matches, the last match's balance text otherwise, and the error text only when nothing matches if the discriminator does not end in `s` |
| SheetScan.RepliesDiffer | bot/sheet_commands.py:54-57 | the two reply texts differ when the discriminator does not end in `s` |
| SheetScan.RepliesCanCoincide | bot/sheet_commands.py:54-57 | a member whose name, discriminator and display name imitate the other reply gets the same text from both branches |
| SheetCommands.GetBalance | bot/sheet_commands.py:41-57 | the forward scan replies with the not-found text when no row matches; otherwise with "has **N** coins!", where N is the last matching row's third cell or 0; for Discord-style discriminators the reply is the error text exactly when nothing matched |
| LegacySheetCommands.Scan | bot/modules/sheet/commands.py:36-41 | the loop keeps its starting value when no row matches, and otherwise ends with the balance of the last matching row |
| LegacySheetCommands.ScanIsLastMatch | bot/modules/sheet/commands.py:36-41 | overwriting the balance while reading from the top gives the last match, or the initial value when nothing matches |
| LegacySheetCommands.GetBalance | bot/modules/sheet/commands.py:32-47 | not-found text when no row matches, otherwise the text for the last matching row's balance |
| LegacySheetCommands.NotFoundIffNoMatch | bot/modules/sheet/commands.py:44-47 | the reply is the not-found text if and only if no row matched, for discriminators not ending in `s` |
| LegacySheetCommands.ShortRowIgnored | bot/modules/sheet/commands.py:37 | rows of fewer than two cells never change the reply |
| Reactions.Handlers | bot/reactions.py:15 | a key never registered reads as the empty list |
| Reactions.Reaction | bot/reactions.py:41-42 | the pair is appended to the end of the key's list and every other key's list is unchanged |
| Reactions.ReactionsAtDifferentKeysCommute | bot/reactions.py:42 | registrations at two different keys commute |
| Reactions.ReactionAllAppends | bot/reactions.py:41-42 | after several registrations at a key, its list is the earlier pairs followed by the new ones in registration order |
| Reactions.PartialEmojiToKey | bot/reactions.py:44-51 | a custom emoji is keyed by its id and any other emoji by its name |
| Reactions.SameKeyIff | bot/reactions.py:44-51 | two emojis share a handler list exactly when both are custom with the same id, or both are non-custom with the same name |
| Reactions.Selected | bot/reactions.py:75-77 | every handler returned is a non-`None` half of some pair, every non-`None` half is returned, and with no `None` halves the i-th handler is the i-th pair's |
| Reactions.SelectedConcat | bot/reactions.py:85-87 | the handlers come out in registration order: selecting from `a + b` is the selection from `a` followed by the one from `b` |
| Reactions.Dispatch | bot/reactions.py:72-73 | no handler runs when the message is missing or the emoji's key was never registered |
| Reactions.OnRawReactionAdd | bot/reactions.py:69-77 | nothing when the message is missing, otherwise exactly the non-`None` add handlers of the emoji's key |
| Reactions.OnRawReactionRemove | bot/reactions.py:79-87 | nothing when the message is missing, otherwise exactly the non-`None` remove handlers of the emoji's key |
| Reactions.DispatchAfterReaction | bot/reactions.py:41-87 | a newly registered handler runs after all earlier ones for its key; a `None` half adds nothing; other keys' dispatch is unchanged |
| Permissions.AnyRoleIs | bot/permissions.py:13 | true exactly when some role in the list has the id |
| Permissions.AnyRoleIn | bot/permissions.py:24 | true exactly when some role's id is in the set |
| Permissions.HasRole | bot/permissions.py:10-17 | false without a `roles` attribute, otherwise true exactly when some role has the id |
| Permissions.HasAnyRole | bot/permissions.py:19-28 | false without a `roles` attribute, otherwise true exactly when some role's id is among the listed ids |
| Permissions.IsAdmin | bot/permissions.py:30 | true exactly when the user has a role with id 765320566739435550 |
| Permissions.HasAnyRoleEmpty | bot/permissions.py:19-24 | an empty id list admits nobody |
| Permissions.HasAnyRoleSingleton | bot/permissions.py:10-28 | `has_any_role([r])` agrees with `has_role(r)` on every user |
| Permissions.HasAnyRoleSetSemantics | bot/permissions.py:20 | only the set of ids matters: order and repetition in the list change nothing |
| Permissions.HasAnyRoleIsSomeHasRole | bot/permissions.py:10-28 | `has_any_role(rs)` holds exactly when `has_role(r)` holds for some listed `r` |

## Left out

- Schema creation and deletion of the database file (`create_database`, `delete_database`, bot/modules/database/database.py): these are DDL and file-system I/O.
- SQLite cursors, commits, `detect_types` and the log calls: tables are row sequences here.
- Item definitions, backpacks, buying, using and rewarding items: the source has only TODO comments for them (bot/database.py:185, 206). The sheet import and export commands only reply "I didn't do anything!".
- Google authentication and the sheet fetch (bot/sheet/google_auth.py, gapi-test.py): these are network calls. Their rows are an input. A failed fetch returns `[]`, which the model covers as an empty input.
- `rrae_to_objects` and the robot-face handler (bot/database_reactions.py): these are asynchronous Discord fetches. Whether the message was found is an input.
- Awaiting handlers and all asynchronous scheduling: dispatch yields the handlers in the order they would be awaited.
- The `balance` and `balance_error` commands: they default the member to the caller, trigger typing and send the reply text, all through the Discord library.
- Command registration, bootstrap, and `check_user` (bot/commands.py, bot/command_registry.py, bot/database_commands.py, bot/bot.py, runbot.py): these are thin wrappers over the Discord library.
- Dates and the `mod_approved` flag of a coin gain: they are carried as uninterpreted fields.
- Decimal.Show: is total. CPython (3.11 on, and the 3.8.14, 3.9.14 and 3.10.7 security releases) raises `ValueError` in `str(n)` when `n` has more than 4300 digits. The model sets that aside because Discord ids have at most 20 digits; for such a `discord_id` the model answers where `bot/database.py:122` would raise.
- Decimal.Parse: accepts only an optional minus sign followed by ASCII digits. Python's `int()` also accepts surrounding whitespace, a plus sign, underscores between digits and non-ASCII digits; the model reports those texts as not integers. In the other direction, the model parses digit strings longer than 4300 digits, where the same CPython versions raise `ValueError` at `bot/database.py:148`. That limit is set aside for the same reason as for Decimal.Show.
- Decimal.ParseShow: states the round trip for every integer. In CPython it holds only up to 4300 digits, because `str` raises beyond that (see Decimal.Show).
- Database.RegisterUser: the id the database would assign to a new row is a parameter that must not be in use. The INSERT as written supplies none.
- LegacySheetCommands.NotFoundIffNoMatch: holds only for discriminators not ending in `s`. SheetScan.RepliesCanCoincide shows the two reply texts can otherwise coincide.
- SheetCommands.GetBalance: its if-and-only-if clause carries the same condition on the discriminator, for the same reason.

## Findings

| source | as written | input that shows it | evidently intended | confidence | as-written member | corrected member |
|---|---|---|---|---|---|---|
| bot/database.py:138 | `row := self._select_user_checked(...) is not None` binds `row` to a bool, because `:=` binds more loosely than `is not`. For a registered user whose query runs, `row[0]` is then `True[0]`, which raises `TypeError`. The same pattern appears at line 156; line 195 would return the bool once line 138 is fixed. Ids whose text has more than one character (such as 42 or -5) fail earlier, at the query on line 122. | table `[(1, "7", 0)]`, `get_user_tid(7)` | return 1, the internal id of the matching row, as the docstring says | high (by reading; not executed) | Database.GetUserTidAsWritten, Database.GetUserTidAsWrittenWitness, Database.GetUserTidAsWrittenFailures | Database.GetUserTid, Database.RegisterThenLookup |
| bot/database.py:122 | `c.execute(sql, str(discord_id))` passes the id text bare. sqlite3 treats a str as a sequence of parameters, one per character, so any id of two or more characters supplies too many bindings for the one `?` and raises `ProgrammingError`. | empty table, `get_user_tid(42)` | bind `(str(discord_id),)` and return `None` for the unregistered id | high (by reading; not executed) | Database.GetUserTidAsWritten, Database.GetUserTidAsWrittenBindingWitness, Database.GetUserTidAsWrittenFailures | Database.GetUserTid, Database.SelectUserChecked |
