# tablettop_bot scheduling core in Dafny

This project models the scheduling and enrolment core of the tabletop game
bot. It also models the user store, the admin grant and the file-name
sanitiser of the companion utility bot.

**Scheduling store.** The `scheduled_games` table is a class holding a
sequence of rows. Its CRUD operations are methods on that class:
- scheduling a session;
- adding, rewriting and removing players;
- marking a session skipped;
- deleting by id list or by cutoff;
- the lowest free Discord room (rooms 1..20, each held for nine hours);
- `update_gametree`, which merges the ids of a weekly series;
- `prolong`, which makes next week's copy of every repeating session due within 21 days.

**Catalogue.** The catalogue (`games` table) is a sequence of values with
lookups and name-ordered listings.

**Handlers.** The chat handlers are modelled by their decisions and by the
contents of their keyboards:
- the schedule and enrolment pages;
- the time keyboard and the date grid;
- the create-game dialog, a class whose step stands for the handler registered for the next message;
- enrol, unsubscribe and delete;
- the host flow, a class holding the chosen game, date, time, room and repeat flag;
- the confirmation summary.

**Utility bot.** The user store is a class over users kept in id order,
with create, update and upsert. The admin grant is a three-way decision
over that store. `sanitize_filename` is a per-character map.

**Conventions:**
- Times are whole minutes since an epoch: `date` is the day number and `time` the minute of the day.
- Ids are integers, and a new row gets one more than the largest id present.
- The nullable text columns `player_ids`, `player_nicknames` and `GameTree` use `""` for NULL.
- Other nullable columns are `Option`s.
- Wall-clock time (`now`, `today`), the formatted date text and configuration strings are parameters.
- `now` is a whole minute: the wall clock rounded up to the next minute. Each comparison of a start with the clock then gives the same answer as the source's comparison with the exact time, because starts are whole minutes. The comparisons are at host_game.py:184, :201 and :264, and games.py:132 and :210 (the 30-minute cutoff).

Files:

| file | module | contents |
|---|---|---|
| `wrappers.dfy` | `Wrappers` | `Option`, `Result` |
| `text.dfy` | `Text` | `split(',')`/`','.join`, `str(int)`/`int(text)`, `strip`, `lower`, string order, `sorted(set(...))` |
| `sorting.dfy` | `Sorting` | stable insertion sort by a total preorder (`ORDER BY`, `sorted(key=...)`) |
| `paging.dfy` | `Paging` | Python slices, page counts, rows of buttons |
| `scheduled_games.dfy` | `ScheduledGames` | the table, its queries and the `GameTable` class |
| `join_game.dfy` | `JoinGame` | join-game handlers |
| `library.dfy` | `Library` | catalogue, library listings, callback data, game card |
| `summary.dfy` | `Summary` | `generate_summary` |
| `host_game.dfy` | `HostGame` | host-game handlers |
| `users.dfy` | `Users` | user store |
| `grant_admin.dfy` | `GrantAdmin` | admin grant |
| `file_names.dfy` | `FileNames` | `sanitize_filename` |

### The room invariant, the free-room scan and the host flow

**Overlapping sessions.** `ScheduledGames.NoRoomClash` states the invariant
one expects of room allocation: a room is unique among sessions whose time
windows overlap. The free-room scan is more cautious:
- a room counts as taken by every session, skipped or not, whose start plus nine hours is after the requested start;
- this includes every session that starts later, however much later.

The table methods keep `NoRoomClash` whenever the room comes from the scan
run on the same table.

**Host flow.** The room is chosen at the Steam step but inserted at the
repeat step. The invariant is kept only if the table did not change in
between (`HostGame.HostSession.Repeat`).

**Steam details in the host flow.** The two handlers that store the
server and password declare `global game_state`. No module-level
`game_state` exists, because it is local to `register_handlers`, so both
raise NameError. As a result a hosted session never has Steam details:
`use_steam` is false and both fields are None.

**Time checks in the host flow.** The time step and the Steam step allow
a start up to 30 minutes in the past. The repeat step refuses any start in
the past.

## Model

| member | source | states |
|---|---|---|
| `ScheduledGames.GameTable.ScheduleGame` | src/tablettop_bot/db/crud/games.py:27-48 | appends exactly one row with a fresh id larger than every other id; the initiator is its only player and its nickname the only nickname; date and time are the parts of the start; not skipped, no parent, empty tree; keeps rooms clash-free when the room is free at that start |
| `ScheduledGames.GameTable.AddPlayerToGame` | src/tablettop_bot/db/crud/games.py:50-66 | unknown id: failure "Игра не найдена." and nothing changes; otherwise the first row with the id gets the user id and nickname appended, with no duplicate check; the id list reads back as the old list plus the id; no other row changes |
| `ScheduledGames.GameTable.UpdateScheduledGamePlayers` | src/tablettop_bot/db/crud/games.py:108-115 | overwrites the two player columns of the first row with the id and nothing else; unknown id: None and nothing changes |
| `ScheduledGames.GameTable.UpdateGameSkippedStatus` | src/tablettop_bot/db/crud/games.py:187-193 | sets the skipped flag of the first row with the id and nothing else; unknown id: None and nothing changes |
| `ScheduledGames.GameTable.DeleteGamesByIds` | src/tablettop_bot/db/crud/games.py:195-198 | the table becomes exactly the rows whose id text is not listed, in order; keeps rooms clash-free |
| `ScheduledGames.GameTable.DeletePastGames` | src/tablettop_bot/db/crud/games.py:207-212 | the table becomes exactly the rows starting at or after the cutoff, in order; keeps rooms clash-free |
| `ScheduledGames.GameTable.GetAvailableRoom` | src/tablettop_bot/db/crud/games.py:90-102 | the scan returns exactly `LowestFreeRoom`: the lowest room in 1..20 not held by any row (skipped rows included) whose start plus nine hours is after the requested start; None exactly when all twenty are held |
| `ScheduledGames.TakenRoomsMeaning` | src/tablettop_bot/db/crud/games.py:93-96 | a room is in the comprehension's list exactly when some row holds it past the requested start |
| `ScheduledGames.LowestFreeRoom` | src/tablettop_bot/db/crud/games.py:90-102 | a room in 1..20 that is not held and every lower room is held; None exactly when all twenty are held |
| `ScheduledGames.InsertFreeRoomKeepsNoClash` | src/tablettop_bot/db/crud/games.py:90-102 | a session inserted into a room the scan found free cannot overlap another session in that room |
| `ScheduledGames.NoClashSameButTree` | src/tablettop_bot/db/crud/games.py:171 | rewriting GameTree columns keeps rooms clash-free |
| `ScheduledGames.GameTable.UpdateGametree` | src/tablettop_bot/db/crud/games.py:159-172 | the table becomes `ApplyGametree` of the old one; the row count and every column but GameTree are unchanged; keeps rooms clash-free |
| `ScheduledGames.ApplyGametree` | src/tablettop_bot/db/crud/games.py:159-172 | a missing parent leaves the table unchanged; otherwise only GameTree columns change |
| `ScheduledGames.GametreeIsSortedUnion` | src/tablettop_bot/db/crud/games.py:165-171 | the parent's new tree reads back as a strictly sorted list whose members are exactly: the old tree, the new id (when given and not 0) and the parent id; every row whose id is listed gets that tree, and every other row keeps its own |
| `ScheduledGames.GametreeIdempotent` | src/tablettop_bot/db/crud/games.py:159-172 | running the merge twice with the same ids gives the same table as running it once |
| `ScheduledGames.GameTable.AddWeeklyCopy` | src/tablettop_bot/db/crud/games.py:134-157 | the table becomes exactly the tree merge (`ApplyGametree`) of parent and copy, applied to the old table plus the weekly copy of the parent in the given room with the next id; earlier rows keep every column but GameTree; keeps rooms clash-free |
| `ScheduledGames.GameTable.ProlongStep` | src/tablettop_bot/db/crud/games.py:128-157 | one turn of the loop: the table becomes `CopyStepRows` of the old table and the parent. When the parent is not due in [now, now + 21 days) or every room is held, nothing changes. Otherwise the new row is the parent's weekly copy. The record of copies made so far is kept |
| `ScheduledGames.GameTable.Prolong` | src/tablettop_bot/db/crud/games.py:123-157 | the table becomes exactly `ProlongRows`: one loop turn per repeat-weekly row, in table order, each followed by its tree merge. Old rows are kept up to GameTree, and there is at most one new row per repeat-weekly row. Each new row is a weekly copy of a distinct repeat-weekly parent: a week later, inside the horizon, in a room 1..20 and not skipped. Every parent due within the horizon got a copy unless all rooms were held. Rooms stay clash-free |
| `ScheduledGames.GameTable.VisitParents` | src/tablettop_bot/db/crud/games.py:128-157 | the loop over the repeat-weekly rows applies the turns in order (`ProlongRows`), only adds rows, records a copy for every due parent with a free room, and keeps rooms clash-free |
| `ScheduledGames.CopyStepMeaning` | src/tablettop_bot/db/crud/games.py:128-157 | a parent that is not due, or finds every room held, changes nothing. Otherwise exactly one row is added, with the next id, the parent as `pgid`, the lowest free room and the parent's columns a week later, and earlier rows keep every column but GameTree |
| `ScheduledGames.CopyJoinsParentTree` | src/tablettop_bot/db/crud/games.py:155-157 | after a copy, parent and copy share one GameTree, and it lists both ids |
| `ScheduledGames.VisibleById` | src/tablettop_bot/db/crud/games.py:104-106 | a row with this id that is not skipped; None exactly when every row with the id is skipped or there is none |
| `ScheduledGames.GameTreeById` | src/tablettop_bot/db/crud/games.py:182-185 | the tree of a row with this id, skipped or not; None exactly when no row has the id |
| `ScheduledGames.InitiatorById` | src/tablettop_bot/db/crud/games.py:200-205 | the initiator of a row with this id, skipped or not; None exactly when no row has the id |
| `ScheduledGames.UpcomingGames` | src/tablettop_bot/db/crud/games.py:76-80 | exactly the non-skipped rows dated today or later, each as often as in the table, sorted by date then time |
| `ScheduledGames.EnrolledGamesByUser` | src/tablettop_bot/db/crud/games.py:174-176 | exactly the non-skipped rows whose player-id text contains the user id as a substring |
| `ScheduledGames.EnrolledUserIsFound` | src/tablettop_bot/db/crud/games.py:174-176 | every session listing the user among its player ids is found |
| `ScheduledGames.SubstringMatchIsNotMembership` | src/tablettop_bot/db/crud/games.py:176 | user 1 is found in a session whose only player is user 12, and the exact listing does not list it |
| `ScheduledGames.EnrolledGamesByUserExact` | src/tablettop_bot/db/crud/games.py:174-176 | exactly the non-skipped rows whose player list holds the user id as an item |
| `ScheduledGames.ExactEnrolmentIsNarrower` | src/tablettop_bot/db/crud/games.py:174-176 | the exact listing only drops sessions that the substring match lists |
| `ScheduledGames.HostedGamesByUser` | src/tablettop_bot/db/crud/games.py:178-180 | exactly the non-skipped rows initiated by the user |
| `ScheduledGames.EnrolledPlayers` | src/tablettop_bot/db/crud/games.py:214-219 | for a visible session, the two plain splits, which join back to the stored columns and are never empty lists; None exactly when the session is missing or skipped |
| `ScheduledGames.DeleteByIds` | src/tablettop_bot/db/crud/games.py:195-198 | a row survives exactly when its id text is not in the list |
| `ScheduledGames.DeleteBefore` | src/tablettop_bot/db/crud/games.py:207-212 | a row survives exactly when it starts at or after the cutoff |
| `JoinGame.NearestDaysWithGames` | src/tablettop_bot/api/handlers/apps/join_game.py:108-123 | the loop returns the first eight distinct dates in order of first appearance, as `NearestDays` defines them |
| `JoinGame.NearestDaysMeaning` | src/tablettop_bot/api/handlers/apps/join_game.py:108-123 | at most eight dates, no repeats, each the date of some game; when fewer than eight, every game's date is among them |
| `JoinGame.TimeSlotsMeaning` | src/tablettop_bot/api/handlers/apps/join_game.py:128 | the slots run every half hour from 10:00 to 23:30 in order: slot k is minute 600 + 30k |
| `JoinGame.TimeLabel` | src/tablettop_bot/api/handlers/apps/join_game.py:133 | five characters "HH:MM" whose two digit groups read back as the hour and the minute |
| `JoinGame.TimeButtonRowsShape` | src/tablettop_bot/api/handlers/apps/join_game.py:126-136 | four full rows of seven; row r, column c carries slot 7r + c, callback "time_" + label, and a label that reads back as the slot |
| `JoinGame.EnrolPageNavigation` | src/tablettop_bot/api/handlers/apps/join_game.py:192-197 | "back" exactly when page > 1, "forward" exactly when page < total pages, and the last button always returns to the main menu |
| `JoinGame.EnrolPageFindsGame` | src/tablettop_bot/api/handlers/apps/join_game.py:168-190 | a game dated on one of the nearest days, at index i, has its button on page i / 10 + 1, which is within the page count |
| `JoinGame.EnrolPageOnlyListedGames` | src/tablettop_bot/api/handlers/apps/join_game.py:172-190 | every enrol button names a listed game dated on one of the nearest days |
| `JoinGame.GameButtons` | src/tablettop_bot/api/handlers/apps/join_game.py:175-190 | exactly the page's games dated on the given days get a button, and nothing else does |
| `JoinGame.IsValidSource` | src/tablettop_bot/api/handlers/apps/join_game.py:297-311 | the loop answers true exactly when one of the four allowed sources is a substring of the link |
| `JoinGame.OnlineAnswerMeaning` | src/tablettop_bot/api/handlers/apps/join_game.py:328-336 | case-insensitive; 1 exactly for "да"/"yes", 0 exactly for "нет"/"no", nothing else understood |
| `JoinGame.OnlineAnswerExamples` | src/tablettop_bot/api/handlers/apps/join_game.py:329-331 | an illustration of `OnlineAnswerMeaning`: "Да" and "YES" give 1, "Нет" and "No" give 0, "maybe" is refused |
| `JoinGame.MinStep` | src/tablettop_bot/api/handlers/apps/join_game.py:259-270 | advances exactly when the text parses as a positive integer, storing it; otherwise state unchanged and the question repeated |
| `JoinGame.MaxStep` | src/tablettop_bot/api/handlers/apps/join_game.py:272-287 | advances exactly for a positive integer not below the stored minimum, storing it; the below-minimum refusal comes exactly for a smaller positive integer; every refusal leaves the state as it was |
| `JoinGame.LinkStep` | src/tablettop_bot/api/handlers/apps/join_game.py:296-325 | stores the stripped text and advances exactly when it names an allowed source; otherwise nothing changes |
| `JoinGame.OnlineStep` | src/tablettop_bot/api/handlers/apps/join_game.py:328-347 | completes exactly on an understood answer, producing the record `add_game` stores from the collected answers; otherwise nothing changes |
| `JoinGame.Dialog` | src/tablettop_bot/api/handlers/apps/join_game.py:213-347 | for one chat whose answers no other chat interleaves: keeps the dialog invariant (a positive minimum, then a maximum not below it, then an allowed link), so the record it completes has 0 < min <= max, an allowed link and online 0 or 1; retries leave the state as it was; stopping (a message without text where one is parsed) or ignoring only clears the step |
| `JoinGame.CreateGameDialog.Receive` | src/tablettop_bot/api/handlers/apps/join_game.py:254-347 | the in-place step of the handler registered for the chat yields exactly the state and reply of `Dialog`, and keeps the invariant (for one chat, as for `Dialog`) |
| `JoinGame.CreateGameDialog.Start` | src/tablettop_bot/api/handlers/apps/join_game.py:213-216 | from the idle state (while a step is pending, the command is taken as that step's answer): waits for the name and keeps every earlier answer |
| `JoinGame.RemoveAtKeepsPairs` | src/tablettop_bot/api/handlers/apps/join_game.py:425-427 | popping one index from both lists removes one (id, nickname) pair and keeps every other pair together |
| `JoinGame.RemoveFirstOccurrence` | src/tablettop_bot/api/handlers/apps/join_game.py:425-426 | `index` then `pop` removes exactly one copy of the id |
| `JoinGame.UnsubscribeInitiator` | src/tablettop_bot/api/handlers/apps/join_game.py:416-419 | the initiator is refused, and only the initiator |
| `JoinGame.UnsubscribeNotListed` | src/tablettop_bot/api/handlers/apps/join_game.py:421-443 | any other user is told they are not enrolled exactly when their id is not in the list |
| `JoinGame.UnsubscribeReadBack` | src/tablettop_bot/api/handlers/apps/join_game.py:421-432 | on success the written columns read back as the old lists with the first occurrence of the user's index popped |
| `JoinGame.HandleUnsubscribe` | src/tablettop_bot/api/handlers/apps/join_game.py:408-445 | the outcome is the decision on the visible session; only a successful unsubscribe writes, and only that row's two player columns |
| `JoinGame.HandleEnroll` | src/tablettop_bot/api/handlers/apps/join_game.py:534-548 | a missing or skipped session fails and changes nothing; an already-listed user is refused and nothing changes; otherwise that row alone gains the id and nickname, and its id list reads back as the old list plus the id |
| `JoinGame.EnrolTwiceIsRefused` | src/tablettop_bot/api/handlers/apps/join_game.py:539-540 | after enrolling, the user is in the list, so a second enrolment is refused |
| `JoinGame.MayDeleteMeaning` | src/tablettop_bot/api/handlers/apps/join_game.py:495-497 | deletion is allowed exactly when the session exists, its initiator id is not 0, and the user is that initiator |
| `JoinGame.HandleDeleteSingle` | src/tablettop_bot/api/handlers/apps/join_game.py:491-505 | the initiator marks that one row skipped; anyone else changes nothing |
| `JoinGame.SeriesIds` | src/tablettop_bot/api/handlers/apps/join_game.py:476-481 | no ids for a missing or empty tree; otherwise the tree's pieces plus the session's own id |
| `JoinGame.HandleDeleteSeries` | src/tablettop_bot/api/handlers/apps/join_game.py:468-488 | deletes exactly when the session has a non-empty tree, and then exactly the rows of `SeriesIds`; otherwise the table is unchanged; no initiator check |
| `JoinGame.SeriesDeleteRemovesSeries` | src/tablettop_bot/api/handlers/apps/join_game.py:476-484 | the session and every member of its tree are gone after a series delete |
| `JoinGame.LinesFrom` | src/tablettop_bot/api/handlers/apps/join_game.py:60-65 | exactly one line per user other than the initiator: as many lines as users minus the entries equal to the initiator's name; each user other than the initiator gets its line, "@name" or "Гость"; no line names the initiator or anyone unlisted |
| `JoinGame.LinesFromAppend` | src/tablettop_bot/api/handlers/apps/join_game.py:60-63 | the lines of two lists one after the other are the lines of the first then those of the second; with `LinesOfOne` this fixes the lines in list order |
| `JoinGame.LinesOfOne` | src/tablettop_bot/api/handlers/apps/join_game.py:60-63 | one user gives no line when it is the initiator and its own line otherwise |
| `JoinGame.TwoGuestsTwoLines` | src/tablettop_bot/api/handlers/apps/join_game.py:51-63 | an illustration of `LinesFrom` and `LinesFromAppend`: two guests give two "Гость" lines |
| `JoinGame.EnrolledUsers` | src/tablettop_bot/api/handlers/apps/join_game.py:49-51 | one user per listed id: the nickname at the same index, or "Гость" when it is empty |
| `JoinGame.PlayerCountMeaning` | src/tablettop_bot/api/handlers/apps/join_game.py:49-53 | the count exists exactly when the lines do (the IndexError otherwise); it is the number of listed ids, that is the number of lines plus the entries carrying the initiator's name |
| `JoinGame.MyGamesOrder` | src/tablettop_bot/api/handlers/apps/join_game.py:32 | the listing is a permutation of the enrolled sessions sorted by start, and sessions starting at the same minute keep their input order, as Python's `sorted` is stable |
| `Sorting.SortByStable` | src/tablettop_bot/api/handlers/apps/join_game.py:32 | for every item y, the items the order ranks level with y come out of the sort in the order they went in |
| `Sorting.SortKeepsTies` | src/tablettop_bot/api/handlers/apps/join_game.py:32 | an illustration of `SortByStable`: two items with equal keys keep their order |
| `JoinGame.HandleStart` | src/tablettop_bot/api/handlers/apps/join_game.py:150-154 | the table becomes exactly the old rows starting at or after now minus 30 minutes, followed by `prolong` on them (`ProlongRows` over their repeat-weekly rows); no row started more than 30 minutes ago; the listing is the upcoming-sessions query on the resulting table; rooms stay clash-free |
| `JoinGame.CopyStartsAtNextWeek` | src/tablettop_bot/db/crud/games.py:129-132 | a weekly copy starts exactly one week after its parent, and not before now |
| `Library.GameDetails` | src/tablettop_bot/db/crud/games.py:72-74 | a game with this id from the catalogue; None exactly when there is none |
| `Library.AllGames` | src/tablettop_bot/db/crud/games.py:68-70 | a permutation of the catalogue sorted by name, NULL names first |
| `Library.GamesWithOnline` | src/tablettop_bot/db/crud/games.py:82-88 | exactly the games with the given online flag, each as often as in the catalogue, sorted by name |
| `Library.NameLeIsTotalPreorder` | src/tablettop_bot/db/crud/games.py:70 | the name order (NULL first, then code points) is total and transitive |
| `Library.LibraryListing` | src/tablettop_bot/api/handlers/apps/library.py:45-71 | an empty list gives only the notice, otherwise a keyboard |
| `Library.LibraryNavigation` | src/tablettop_bot/api/handlers/apps/library.py:60-69 | "previous" exactly when there are several pages and this is not the first; "next" exactly when there are several and this is not the last; none for a single page |
| `Library.LibraryShowsEveryGame` | src/tablettop_bot/api/handlers/apps/library.py:52-58 | game i is on page i / 11, which is below the page count |
| `Library.LibraryNavigationStaysInRange` | src/tablettop_bot/api/handlers/apps/library.py:60-67 | from a page with games, both navigation buttons lead to pages with games |
| `Library.CallbackRoundTrip` | src/tablettop_bot/api/handlers/apps/library.py:58-75 | `int(data.split('_')[-1])` gives back the id of a game button and the page of every navigation button, offline and online |
| `Library.GameInfoMessage` | src/tablettop_bot/api/handlers/apps/library.py:17-32 | unknown id: the not-found text; otherwise the card opens with the linked name and contains the players line |
| `Library.PlayersLineReadBack` | src/tablettop_bot/api/handlers/apps/library.py:28 | the players line reads back as the game's minimum and maximum |
| `Summary.GenerateSummary` | src/tablettop_bot/core/games.py:11-41 | missing game: only the error text; otherwise header and date line first, then the time and room-link lines; the Steam block only when `use_steam`; the host line last |
| `Summary.ClockReadBack` | src/tablettop_bot/core/games.py:26 | the clock text reads back as an hour below 24 and a minute below 60 that make up the start's minute of the day |
| `Summary.DateLineMeaning` | src/tablettop_bot/core/games.py:18-21 | the date line says "weekly from" exactly when the session repeats |
| `Summary.HostMention` | src/tablettop_bot/core/games.py:36-39 | the summary ends with "Ведущий: " and the name, with "@" exactly when the flag is set |
| `Summary.SteamBlockOnlyWithSteam` | src/tablettop_bot/core/games.py:30-34 | turning `use_steam` on inserts exactly the Steam block, with "N/A" for missing values, between the room line and the host line, and changes nothing else |
| `HostGame.GenerateDateMatrix` | src/tablettop_bot/api/handlers/apps/host_game.py:63-70 | twenty-one days, the i-th being today + i |
| `HostGame.DateGridShape` | src/tablettop_bot/api/handlers/apps/host_game.py:73-83 | three full rows of seven; row r, column c offers day today + 7r + c |
| `HostGame.HostLibraryListing` | src/tablettop_bot/api/handlers/apps/host_game.py:99-104 | an empty catalogue gives only the notice |
| `HostGame.HostLibraryNavigation` | src/tablettop_bot/api/handlers/apps/host_game.py:106-123 | "previous" exactly when page > 0; "next" exactly when a later page exists, with no one-page guard; game i is on page i / 11 |
| `HostGame.HostLibraryAgreesWithLibrary` | src/tablettop_bot/api/handlers/apps/host_game.py:117-123 | on every reachable page the host's listing equals the library listing |
| `HostGame.HostedSessionListing` | src/tablettop_bot/api/handlers/apps/host_game.py:269-289 | the session the repeat step stores, whose only nickname is the initiator's name, shows no player line in "my games" and counts one player, when the name is not empty and has no comma |
| `HostGame.HostSession.SelectGame` | src/tablettop_bot/api/handlers/apps/host_game.py:137-150 | the game is remembered exactly when the catalogue has it; nothing else changes |
| `HostGame.HostSession.SelectDate` | src/tablettop_bot/api/handlers/apps/host_game.py:155-157 | stores the date and nothing else |
| `HostGame.HostSession.SelectTime` | src/tablettop_bot/api/handlers/apps/host_game.py:178-188 | stores the time; with a date, it asks about Steam exactly when the start is no more than 30 minutes past; without a date it stops |
| `HostGame.HostSession.SelectSteam` | src/tablettop_bot/api/handlers/apps/host_game.py:192-219 | stops without a date or time, refuses a start more than 30 minutes past, and reports all rooms busy exactly when all twenty are held; otherwise stores the lowest free room, then asks for a server on "steam_yes" and goes to the repeat question on "steam_no" |
| `HostGame.HostSession.Repeat` | src/tablettop_bot/api/handlers/apps/host_game.py:248-296 | stores the repeat flag; refuses a past start; schedules exactly when date, time and game are chosen and the start is not past, inserting one row with the chat as initiator and only player, the stored room and the repeat flag, and no Steam details; the reply is the summary followed by the game card; rooms stay clash-free when the room is still free at insert time |
| `Users.ReadUser` | src/telegram_bot/db/crud/users.py:15-20 | a user with this id; None exactly when there is none |
| `Users.ReadUserByUsername` | src/telegram_bot/db/crud/users.py:23-28 | the first user, in id order, whose username equals the given one (None matches users without one); None exactly when no user has it |
| `Users.UserStore.CreateUser` | src/telegram_bot/db/crud/users.py:39-86 | an existing id is an integrity error and the store is rolled back unchanged; otherwise the new user has both timestamps now, language "en" and role "user" unless given, is found by its id, and every other id reads as before |
| `Users.UserStore.UpdateUser` | src/telegram_bot/db/crud/users.py:89-142 | unknown id: ValueError and nothing changes; otherwise only the given fields are overwritten, the last-message time is always refreshed, and no other user changes |
| `Users.Updated` | src/telegram_bot/db/crud/users.py:116-130 | each given field is overwritten and each missing one kept; the id and first-message time never change; the last-message time becomes now |
| `Users.UpdatedProperties` | src/telegram_bot/db/crud/users.py:116-130 | an update with nothing given only refreshes the last-message time; repeating an update changes only that time |
| `Users.UserStore.UpsertUser` | src/telegram_bot/db/crud/users.py:145-186 | never fails; updates the user when the id exists and creates it otherwise, without a phone number; afterwards the id is in the store exactly once and reads back as the result |
| `Users.InsertByIdThenRead` | src/telegram_bot/db/crud/users.py:77-78 | after an insertion the new user is found by its id, and every other id finds what it found before |
| `Users.CountIdInIdOrder` | src/telegram_bot/db/crud/users.py:171-179 | in a store kept in id order each id occurs at most once, and exactly once when it can be read |
| `GrantAdmin.ReadUsername` | src/telegram_bot/api/handlers/admin/grant_admin.py:34-58 | looks the text up exactly as typed; no such user: not-found reply and nothing changes; first match already admin: that reply and nothing changes; otherwise that user alone becomes admin, keeping id, username, names, phone and language, with the last-message time refreshed |
| `GrantAdmin.AsAdmin` | src/telegram_bot/api/handlers/admin/grant_admin.py:50 | role "admin" and a refreshed last-message time; every other field kept |
| `GrantAdmin.GrantThenAlreadyAdmin` | src/telegram_bot/api/handlers/admin/grant_admin.py:38-48 | after a grant the same text finds the same user, now an admin, so asking again gets the already-admin reply |
| `GrantAdmin.TextlessMessageFindsUnnamedUser` | src/telegram_bot/api/handlers/admin/grant_admin.py:35-38 | a message without text finds a user who has no username |
| `GrantAdmin.ReadUsernameGuarded` | src/telegram_bot/api/handlers/admin/grant_admin.py:34-58 | a message without text grants nothing and changes nothing; with text, the outcome and the new store are exactly those of `ReadUsername` (not found, already admin, or that user alone made admin); a grant only goes to a non-admin user whose username is exactly the typed text |
| `FileNames.SanitizeFilename` | src/telegram_bot/api/handlers/apps/google_drive.py:35-36 | same length; every output character is an ASCII letter, a digit, '_', '-' or '.'; those characters stay in place and every other one becomes '_' |
| `FileNames.SanitizeIdempotent` | src/telegram_bot/api/handlers/apps/google_drive.py:36 | sanitizing twice equals sanitizing once |
| `FileNames.SanitizeFixedPoint` | src/telegram_bot/api/handlers/apps/google_drive.py:36 | a name is unchanged exactly when all its characters are allowed |
| `FileNames.SanitizeCollides` | src/telegram_bot/api/handlers/apps/google_drive.py:36 | an illustration of `SanitizeFilename`: "a b" and "a/b" both become "a_b" |

## Left out

- **Telegram transport:**
  - sending, editing and deleting messages, answering callbacks, and registering next-step handlers;
  - keyboard objects, beyond their buttons' contents and row shape;
  - the bots' polling loops and middlewares;
  - callback routing: join_game.py:218 and host_game.py:154 both register a handler for the `date_` prefix, and the host library handler at host_game.py:130 matches every `prev_page_` and `next_page_` data, including the library listing's own navigation buttons. Which handler runs depends on the registration order, which is not part of this model. `HostGame.HostSession.SelectDate` assumes the host handler runs.
- The daily scheduler thread and the admin broadcast with its background scheduler. Both are concurrency and randomness.
- **Races.** The check-then-insert race between the free-room scan and the insert is left out; each operation is atomic. The host flow's state is one shared object for every chat.
- `JoinGame.Dialog` and `JoinGame.CreateGameDialog.Receive` model one chat's dialog on its own. In the source, `game_state` is one module-level object shared by every chat (join_game.py:105), so answers from two chats interleave. For example: chat A answers min 1 and max 2; chat B starts, gives a name and answers min 5; chat A finishes, and `add_game` stores chat B's name with min 5 and max 2. The invariant 0 < min <= max holds only when no other chat's answer falls between a chat's first and last answer.
- `Library.Game` makes `online`, `min_players` and `max_players` non-null, while models.py:34-36 leaves them nullable. A NULL `online` matches neither online filter, and a NULL player count prints as "None" on the game card. The model has no such rows.
- SQL `ORDER BY` leaves the order of equal keys open. The model's sort keeps table order among them, which is one of the orders the database may return.
- **ORM and session lifecycle.** Every operation is atomic on an in-memory table. SQL `LIKE` is a substring test, and `id IN (...)` compares decimal texts.
- **Formatting:**
  - date formatting (`strftime` of dates, weekday names), which is abstract: dates are day numbers and the formatted date text is a parameter;
  - configuration strings (`not found` texts, the room-link table), which are parameters;
  - the schedule overview text, the enrolment confirmation templates and the unsubscribe confirmation text.
- **Parsing:**
  - `int()` accepting underscores and non-ASCII digits;
  - `lower()` beyond ASCII and Cyrillic letters;
  - `strptime` of the callback dates, since dates and times are given as numbers.
- **Unreachable host-flow handlers.** `ask_for_server`, `handle_password_input` and `ask_for_password` always fail or are never registered. The model keeps the server and password unset instead.
- `add_game` is not modelled. The dialog ends with the record it would store.
- `synchronize_series_players`, `get_game_name_by_id` and `read_users` are not called by the modelled handlers.
- `get_enrolled_players` raises on a NULL player-id column. The model reads NULL as empty text.
- Duplicate weekly copies made by separate `prolong` runs, such as a copy's own copy, are allowed as in the source. `Prolong` promises distinct parents only within one run.
- The host's `select_game_` callback parse (`split('_')[2]`) is not modelled. The game id is given as a number.
- `HostGame.InitiatorName` and `HostGame.HostSession.Repeat` cover chats that have a first name, as private chats do. `Chat.firstName` is a string, so the model cannot express a chat without one. In a group chat without a public username, `message.chat.first_name` and `last_name` are None, so the name taken at host_game.py:270-281 is None. `schedule_game` then stores NULL `initiator_name` and NULL `player_nicknames` (games.py:35 and :41), and the summary ends with "Ведущий: None". The `'Гость'` fallback for a failing username read is not modelled either.
- `JoinGame.EnrolledLines` and `JoinGame.PlayerCount` cover only the player part of `format_enrolled_games`. The day headers, the server line and the room line are formatting.
- The utility bot's `events` table and its cascade are not modelled.
- `Users.UserStore.CreateUser` keeps users in id order. SQLite scans a table keyed by an integer primary key in that order, so "first match" is the lowest id.
- **Database backend.** The name order of `Library.AllGames`, `Library.GamesWithOnline` and `Library.NameLeIsTotalPreorder`, and the first-match scan order of `Users.ReadUserByUsername` and the `.first()` lookups, are SQLite's. Both database.py files (lines 31-37) switch to PostgreSQL whenever the `DB_*` variables are set, and there:
  - `ORDER BY name` puts NULL names last, not first;
  - names compare by the database collation, not by code points;
  - a scan without `ORDER BY` has no guaranteed order, so "first match" need not be the lowest id or the earliest row.

## Findings

| source | as written | input that shows it | evidently intended | confidence | as-written member | corrected member |
|---|---|---|---|---|---|---|
| src/tablettop_bot/db/crud/games.py:176 | the "my games" query matches the user id as a substring of the comma-joined id list | user 1, and a session whose only player is user 12: it is listed as one of user 1's games | list only the sessions whose id list holds the user id as an item | high, not executed | `ScheduledGames.SubstringMatchIsNotMembership` | `ScheduledGames.EnrolledGamesByUserExact` |
| src/telegram_bot/api/handlers/admin/grant_admin.py:35-50 | the typed text is looked up without checking that there is one; a message without text (a sticker, a photo) looks up `username IS NULL` | a sticker sent as the username, while some non-admin user has no username: that user is made an admin | refuse a message without text | medium, not executed | `GrantAdmin.TextlessMessageFindsUnnamedUser` | `GrantAdmin.ReadUsernameGuarded` |
