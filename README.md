# iGaming backend: game rounds and leaderboard, in Dafny

This project models the two services at the heart of the iGaming backend.

**The game service** runs timed "pick a number from 1 to 9" rounds. A user
joins the current round; the first joiner opens a new round. Users beyond the
seat capacity wait in a queue. A seated user picks a number. When a round is
completed, a number is drawn and every seated participant who picked it wins.
A user can leave a round, and the earliest queued user then takes a seat.

**The leaderboard service** reports over the stored rounds:
- the players with the most wins;
- the completed rounds within a date range;
- the period's top winners;
- one user's win/loss statistics.

The model follows the service code as written, including behaviour a reader
might not expect:

- Joining never checks whether the user is already in the round, so one user
  can hold several participant rows.
- Completing a round never checks whether it is already completed. A second
  completion stores a new draw and adds that draw's winners, while the first
  draw's winners keep their flag.
- Leaving promotes the earliest queued participant even when the leaver was
  queued. A round whose seats were full then holds one seated participant
  more than its capacity (Game.QueuedLeaverOverfills).
- The earliest queued participant is read before the leaver's row is deleted.
  When it is the leaver itself, the promotion finds no row and fails after the
  delete has already happened.
- The model proves that joining never opens a second round when one is
  already open.

Where the code leaves a choice to the database, the model makes one: a
`findFirst` without `orderBy` returns the first matching row in storage
order, so "the current round" is the first open round in storage order.
"## Left out" says what that choice decides.

### Structure

- `Wrappers.dfy`: `Option` and `Result`.
- `Seqs.dfy`: the JavaScript array operations the services use:
  - `filter`;
  - the first match of a query (`findFirst`);
  - a stable sort by a numeric key, descending;
  - `slice(0, end)`, including a negative `end`.
- `GameStore.dfy`: the session and participant tables and the store operations
  the game service issues (find first, update, delete, update many), as pure
  functions over the rows in storage order. It also holds the table
  invariants and the lemmas that each operation keeps them.
- `GameService.dfy` (module `Game`): class `GameService` holds both tables and a
  fresh-id counter. Each service method is a method of the class and changes the
  tables one store call at a time. A few witness lemmas show concrete stores on
  which the as-written behaviours above happen.
- `Leaderboard.dfy`: the leaderboard reports.
  - The tally loops of `getPlayersByPeriod` are a method with nested loops,
    proved against a specification of the finished tally.
  - The other reports are functions over the records the store returns.

Inputs that come from outside the services are parameters:
- the clock: `now`, in milliseconds;
- the random draw: `drawn`, in 1..9;
- the environment settings: `Option<int>`, where `None` means absent or not a
  number.

## Model

| member | source | states |
|---|---|---|
| Seqs.Filter | iGaming-backend/src/game/game.service.ts:53 | the result holds exactly the elements that satisfy the predicate, each no more often than in the input, and its length is the number of positions holding a match |
| Seqs.MatchesSnoc | iGaming-backend/src/game/game.service.ts:53 | one more element adds one matching position exactly when it matches |
| Seqs.FilterMultiplicity | iGaming-backend/src/game/game.service.ts:53 | every match is kept exactly as often as it occurs in the input, and nothing else is kept |
| Seqs.FilterAppend | iGaming-backend/src/game/game.service.ts:53 | filtering a concatenation is concatenating the filters, so the matches keep their original order |
| Seqs.FilterFilter | iGaming-backend/src/game/game.service.ts:15-21 | filtering the participants of a session by a second predicate is filtering the table once by both |
| Seqs.FilterSplit | iGaming-backend/src/game/game.service.ts:197-198 | filtering by a predicate and by its negation splits a sequence into two parts whose lengths add up to its length |
| Seqs.FirstIndex | iGaming-backend/src/game/game.service.ts:10-14 | findFirst: the index found satisfies the query and no earlier element does; None exactly when nothing satisfies it |
| Seqs.Insert | iGaming-backend/src/leaderboard/leaderboard.service.ts:23 | inserting into a list sorted by descending key keeps it sorted and is a permutation of the list plus the new element |
| Seqs.InsertBelowHead | iGaming-backend/src/leaderboard/leaderboard.service.ts:23 | inserting a smaller element behind the head of a sorted list leaves the head at least as large as everything after it |
| Seqs.SortDesc | iGaming-backend/src/leaderboard/leaderboard.service.ts:23 | `sort((a, b) => b.wins - a.wins)`: the result is sorted by descending key and is a permutation of the input |
| Seqs.SliceTo | iGaming-backend/src/leaderboard/leaderboard.service.ts:24 | `slice(0, end)`: a prefix of length min(end, n) for end >= 0, and max(n + end, 0) for a negative end |
| Seqs.PrefixOfSorted | iGaming-backend/src/leaderboard/leaderboard.service.ts:22-24 | a prefix of a sorted list is sorted, and each of its elements occurs no more often than in the list |
| Seqs.SortedPrefixDominates | iGaming-backend/src/leaderboard/leaderboard.service.ts:116-118 | whatever a prefix of a sorted list leaves out has a key no larger than any element of the prefix |
| Game.SettingOr | iGaming-backend/src/game/game.service.ts:26 | `parseInt(setting) \|\| fallback`: the fallback exactly when the setting is absent, not a number or 0; otherwise the setting, negative values included |
| GameStore.OpenSessionIndex | iGaming-backend/src/game/game.service.ts:10-14 | the first session that is active and not completed; None exactly when no session is open |
| GameStore.SessionIndex | iGaming-backend/src/game/game.service.ts:141-142 | the lookup by id finds a session with that id; None exactly when no session has it |
| GameStore.ParticipantsOf | iGaming-backend/src/game/game.service.ts:15-21 | the participants included with a session are exactly the stored participants with that session id |
| GameStore.ActiveCount | iGaming-backend/src/game/game.service.ts:53-55 | the seated count of a session is the number of its rows that are not queued |
| GameStore.SeatedRows | iGaming-backend/src/game/game.service.ts:197 | filtering the session's participants by "not queued" counts exactly the table rows of that session that are not queued |
| GameStore.QueueCount | iGaming-backend/src/game/game.service.ts:198-204 | the queued count of a session is the number of its rows that are queued |
| GameStore.QueuedRows | iGaming-backend/src/game/game.service.ts:198 | filtering the session's participants by "queued" counts exactly the table rows of that session that are queued |
| GameStore.ActiveCountSnoc | iGaming-backend/src/game/game.service.ts:53-55 | appending a row adds one to its session's seated count exactly when that row is a seated row of that session |
| GameStore.AllSeatedCount | iGaming-backend/src/game/game.service.ts:53-55 | rows that are all seated in a session take as many of its seats as there are rows |
| GameStore.FirstSeatedCount | iGaming-backend/src/game/game.service.ts:53-55 | a seated first row followed only by queued rows takes exactly one seat |
| GameStore.ActivePlusQueued | iGaming-backend/src/game/game.service.ts:197-198 | the seated count plus the queued count of a session is the number of its participants |
| GameStore.OpenParticipantIndex | iGaming-backend/src/game/game.service.ts:63-70 | the first participant of the user whose session is open; no earlier row qualifies; None exactly when no row qualifies |
| GameStore.EarliestQueued | iGaming-backend/src/game/game.service.ts:74-82 | the result is a queued participant of the session, and no queued participant of it joined earlier; None exactly when the session has no queued participant |
| GameStore.UpdateById | iGaming-backend/src/game/game.service.ts:98-101 | update by id, on the participant table here and on the session table at lines 141-148: fails exactly when no row has the id; otherwise only the rows with that id change, and they change by the update |
| GameStore.DeleteParticipant | iGaming-backend/src/game/game.service.ts:92-94 | delete by id: fails exactly when no row has the id; otherwise one row with that id is removed and the others keep their order |
| GameStore.MarkWinners | iGaming-backend/src/game/game.service.ts:150-159 | updateMany: a row is a winner afterwards exactly when it was one before or it is seated in the session with the drawn number; no other field changes |
| GameStore.MarkWinnersTwice | iGaming-backend/src/game/game.service.ts:138-159 | completing twice marks as winners the winners of both draws |
| GameStore.UpdateParticipantAt | iGaming-backend/src/game/game.service.ts:132-135 | with unique ids, an update by a stored row's id changes that row alone |
| GameStore.DeleteParticipantAt | iGaming-backend/src/game/game.service.ts:92-94 | with unique ids, a delete by a stored row's id removes that row alone |
| GameStore.RemoveKeepsInvariant | iGaming-backend/src/game/game.service.ts:92-94 | deleting a participant keeps the table invariants |
| GameStore.ReplaceKeepsInvariant | iGaming-backend/src/game/game.service.ts:98-101 | replacing a row by one with the same id, session and winner flag keeps the table invariants |
| GameStore.UpdateSessionAt | iGaming-backend/src/game/game.service.ts:141-148 | with unique ids, an update by a stored session's id changes that session alone |
| GameStore.UpdateAfterDelete | iGaming-backend/src/game/game.service.ts:92-101 | after a row is deleted, updating a previously stored row fails exactly when that row is the deleted one |
| GameStore.CompleteKeepsInvariant | iGaming-backend/src/game/game.service.ts:138-159 | completing a session and marking its winners keeps the table invariants, including "no winner in an open session" |
| GameStore.CompleteKeepsAtMostOneOpen | iGaming-backend/src/game/game.service.ts:141-148 | completing a session never makes two sessions open |
| GameStore.CompleteOpenKeepsWinnersMatchDraw | iGaming-backend/src/game/game.service.ts:138-159 | completing an open session keeps "in every completed session the winners are exactly the seated participants who picked its number" |
| GameStore.SessionIndexOfUnique | iGaming-backend/src/game/game.service.ts:141-142 | with unique ids, looking up a stored session's id finds that session |
| GameStore.SessionIndexSameIds | iGaming-backend/src/game/game.service.ts:141-142 | a session lookup depends only on the ids in storage order |
| GameStore.SessionIndexAppend | iGaming-backend/src/game/game.service.ts:29-36 | creating a session does not change the lookup of the existing ones |
| Game.GameService.constructor | iGaming-backend/src/game/game.service.ts:7 | the service starts on empty tables that satisfy the invariants |
| Game.GameService.CurrentSession | iGaming-backend/src/game/game.service.ts:9-23 | the first open session with exactly its participants; None exactly when no session is open; when at most one is open, it is that one |
| Game.GameService.CreateNewSession | iGaming-backend/src/game/game.service.ts:25-37 | appends one open, undrawn session with a fresh id, started by the caller now and ending after the configured seconds (20 by default); participants unchanged |
| Game.GameService.AddParticipant | iGaming-backend/src/game/game.service.ts:164-182 | appends one participant with a fresh id, joined now, seated or queued as asked, with no number and no win |
| Game.GameService.JoinSession | iGaming-backend/src/game/game.service.ts:39-60 | with no open session: a new session started by the caller, with the caller seated in it; past the deadline: SessionEnded and nothing changes; otherwise one new row, queued exactly when the seats (default 10) are full; at most one open session is preserved |
| Game.Leave | iGaming-backend/src/game/game.service.ts:62-105 | no qualifying row: NoActiveSession and nothing changes; otherwise the leaver's row is deleted and the earliest queued row read before the delete is seated (only that row changes); when that row is the leaver, RecordNotFound after the delete |
| Game.GameService.LeaveSession | iGaming-backend/src/game/game.service.ts:62-105 | the result and the new participant table are those of Game.Leave on the old tables; sessions are unchanged and the invariants hold |
| Game.GameService.DeleteParticipantRow | iGaming-backend/src/game/game.service.ts:92-94 | the delete succeeds exactly when the row exists, and the table becomes the store's delete |
| Game.GameService.SeatParticipant | iGaming-backend/src/game/game.service.ts:98-101 | the update succeeds exactly when the row exists, and only that row is seated |
| Game.GameService.ChooseNumber | iGaming-backend/src/game/game.service.ts:107-136 | a number outside 1..9 is InvalidNumber; no row is NoActiveSession; a queued row is ForbiddenWhileQueued; otherwise only that row's number changes, and the updated row is returned |
| Game.Completion | iGaming-backend/src/game/game.service.ts:138-162 | unknown id: RecordNotFound and nothing changes; otherwise that session alone gets the draw and is closed and is returned, and the participant table is the winner-marking update |
| Game.GameService.CompleteSession | iGaming-backend/src/game/game.service.ts:138-162 | the result and the new tables are those of Game.Completion on the old tables; at most one open session is preserved, and completing an open session keeps every completed session's winners matching its draw |
| Game.GameService.SessionStatus | iGaming-backend/src/game/game.service.ts:184-207 | no open session: all zero; otherwise the whole seconds left (0 once under a second), and the seated and queued counts, which sum to the participants |
| Game.SelfPromotionReachable | iGaming-backend/src/game/game.service.ts:62-101 | a store meeting the invariants in which the leaver's row is also the earliest queued row of its session |
| Game.SelfPromotionFails | iGaming-backend/src/game/game.service.ts:92-101 | on that store, Game.Leave deletes the leaver's row and then fails with RecordNotFound |
| Game.QueuedLeaverStore | iGaming-backend/src/game/game.service.ts:62-82 | a store meeting the invariants with A seated and B and C queued, in which C's open row is found and B is the earliest queued row |
| Game.QueuedLeaverPromotesAnother | iGaming-backend/src/game/game.service.ts:62-101 | on that store, C's leave succeeds, deletes C's row and seats B, although C held no seat |
| Game.QueuedLeaverOverfills | iGaming-backend/src/game/game.service.ts:62-101 | on that store, one seat is taken before C's leave and two after it: with one seat per session, the round holds one seated participant more than its seats |
| Game.SecondCompletionBreaksWinnersMatchDraw | iGaming-backend/src/game/game.service.ts:138-159 | completing a session a second time leaves a winner whose number is not the stored draw |
| Leaderboard.StatsOf | iGaming-backend/src/leaderboard/leaderboard.service.ts:15-20 | a player's record: id and username, wins = winning participations, games = all participations, wins <= games |
| Leaderboard.AllStats | iGaming-backend/src/leaderboard/leaderboard.service.ts:15-20 | one record per player, in the store's order |
| Leaderboard.TopPlayers | iGaming-backend/src/leaderboard/leaderboard.service.ts:8-25 | sorted by wins descending, drawn from the players' records, with the length slice gives for the limit (10 by default) |
| Leaderboard.TopPlayersEntries | iGaming-backend/src/leaderboard/leaderboard.service.ts:15-24 | every entry is some player's own record, with wins <= games |
| Leaderboard.TopPlayersAreTop | iGaming-backend/src/leaderboard/leaderboard.service.ts:22-24 | a player left out has no more wins than any player listed |
| Leaderboard.SeatedIn | iGaming-backend/src/leaderboard/leaderboard.service.ts:48-51 | the included participants are exactly the session's rows that are not queued |
| Leaderboard.SessionsOf | iGaming-backend/src/leaderboard/leaderboard.service.ts:45-60 | the sessions of the listed entries, in order |
| Leaderboard.SessionsByDate | iGaming-backend/src/leaderboard/leaderboard.service.ts:27-61 | the sessions are a permutation of the completed sessions within the bounds, latest first, each with its seated participants |
| Leaderboard.WhereStartedAt | iGaming-backend/src/leaderboard/leaderboard.service.ts:32-43 | the `startedAt` clause built step by step holds exactly the given bounds: the end date's spread keeps the start date's `gte`; no clause when neither bound is given |
| Leaderboard.WhereClauseIsInPeriod | iGaming-backend/src/leaderboard/leaderboard.service.ts:28-43 | a session passes the built where clause (completed, and its `startedAt` clause) exactly when it is completed and within both given bounds |
| Leaderboard.SessionsByDateEntries | iGaming-backend/src/leaderboard/leaderboard.service.ts:28-43 | every listed session is stored, completed, and within the given bounds |
| Leaderboard.OccurrencesAppend | iGaming-backend/src/leaderboard/leaderboard.service.ts:105-111 | one more winning row adds one win to its user only; a user's username is the one from their first win |
| Leaderboard.TallyStep | iGaming-backend/src/leaderboard/leaderboard.service.ts:104-111 | one more winning row keeps the tally complete: an existing key gains one win, a new key is appended with one win and that row's username |
| Leaderboard.FlattenNext | iGaming-backend/src/leaderboard/leaderboard.service.ts:102-103 | the winners seen after one more session are the earlier ones followed by that session's winners |
| Leaderboard.TallyWinners | iGaming-backend/src/leaderboard/leaderboard.service.ts:100-114 | the tally has one key per user who won, in first-win order, with their win count and first username |
| Leaderboard.OccurrencesPositive | iGaming-backend/src/leaderboard/leaderboard.service.ts:105-111 | a user has a positive count exactly when some winning row is theirs |
| Leaderboard.DistinctCount | iGaming-backend/src/leaderboard/leaderboard.service.ts:100 | map keys never repeat, so there are as many keys as distinct users |
| Leaderboard.TallySize | iGaming-backend/src/leaderboard/leaderboard.service.ts:100-116 | a complete tally has exactly one entry per distinct winner |
| Leaderboard.TallyValues | iGaming-backend/src/leaderboard/leaderboard.service.ts:116 | `Array.from(map.values())`: the entries in key insertion order |
| Leaderboard.TallyValuesAreWinners | iGaming-backend/src/leaderboard/leaderboard.service.ts:100-116 | every tally entry has at least one win and is some winner's username and win count |
| Leaderboard.RankTallies | iGaming-backend/src/leaderboard/leaderboard.service.ts:116-118 | min(10, n) entries, sorted by wins descending, drawn from the tally; no entry left out has more wins than an entry kept |
| Leaderboard.PlayersByPeriod | iGaming-backend/src/leaderboard/leaderboard.service.ts:100-118 | min(10, number of distinct winners) entries, sorted by wins descending, each a winner's real username and win count, drawn from the complete tally; no winner left out has more wins than a winner kept |
| Leaderboard.WinRate | iGaming-backend/src/leaderboard/leaderboard.service.ts:135 | 0 with no games; otherwise wins/games x 100 rounded half up, so at most 100 |
| Leaderboard.UserStatsOf | iGaming-backend/src/leaderboard/leaderboard.service.ts:120-143 | UserNotFound exactly for an unknown user; otherwise wins, losses = the non-winning rows, games, with wins + losses = games and the win rate in 0..100 |

## Left out

- The store itself is out of scope: Prisma, its async calls, its generated ids and timestamps, and its relation includes of `user` objects. Tables are sequences in storage order. Ids come from a counter. `startedAt` and `joinedAt` are the `now` parameter.
- Concurrency is out of scope. Two requests interleaving between a read and a write, such as two joins both seeing no open session, are not modelled. Each method runs atomically.
- The random draw is the parameter `drawn`, required to be in 1..9, which is the range `Math.floor(Math.random() * 9) + 1` produces.
- The clock is the parameter `now`, in milliseconds.
- The environment variables are read as `Option<int>` settings: `None` for absent or not a number. `parseInt` parsing of the string is not modelled.
- The store reads of `getTopPlayers`, `getUserStats` and `getPlayersByPeriod` are taken as given lists. For `getPlayersByPeriod` that list is each fetched session's winners. Only the computation done on those lists is modelled.
- `getPlayersByPeriod` computes its start date from the calendar ("day", "week", "month") and that is not modelled. Leaderboard.PlayersByPeriod starts from the sessions that query returns.
- Leaderboard.SessionsByDate takes its date bounds already converted to milliseconds. Parsing of the date strings is not modelled.
- Leaderboard.WinRate uses exact rational arithmetic in place of floating point, so it can differ from the source by one where the floating-point product falls just below a half. At 23 wins of 40 games the source computes `Math.round(57.49999999999999)` = 57, and the model gives 58. It also returns the number, without the `%` suffix of the returned string.
- Game.GameService.ChooseNumber takes an integer number. The service's own check (game.service.ts:110) only rejects numbers below 1 or above 9, so 2.5 or NaN would pass it and reach the store update. The model does not capture such inputs.
- Leaderboard.TopPlayers, Leaderboard.RankTallies and Leaderboard.SessionsByDate do not state the order among entries with equal keys.
- GameStore.OpenParticipantIndex and GameStore.OpenSessionIndex read a `findFirst` without `orderBy` (game.service.ts:10, 63 and 114) as the first matching row in storage order. The relation includes at game.service.ts:15-21 and leaderboard.service.ts:48-55 are likewise read in storage order. The database promises no order. The choice matters when a user holds two rows in an open session, one seated and one queued, which joining twice allows: it decides which row leaveSession deletes and which row chooseNumber updates or refuses as queued.
- GameStore.EarliestQueued breaks a tie in `joinedAt` by storage order, taking the first such row. The source's `orderBy: { joinedAt: 'asc' }, take: 1` leaves that choice to the database.
- `AuthContext.tsx` (the frontend's login state) is not part of this model.
- The controller and DTO layers are not part of this model. Neither are the participant's `user` relation fields or the returned message objects.
