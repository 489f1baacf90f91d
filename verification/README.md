# CoMentor gamification core in Dafny

This project models the gamification engine of CoMentor, a study companion for students preparing for the Turkish university entrance exams (TYT/AYT). The engine has these parts:

- **XP ledger.** Every award appends an `XpTransaction` and raises the user's `TotalXp`.
- **League classifier and league-history state machine.** XP bands "Bronz" … "Elmas", with in-band progress, in-league rank, promotion and initialisation.
- **Study-streak tracker.** A day-granularity state machine plus a read-only status view.
- **Leaderboards.** General, school and grade boards; the current user's fallback rank; XP history and calendar-window XP sums.
- **Achievement evaluator.** Threshold rules and rules keyed by achievement name, with idempotent granting.
- **Pomodoro session lifecycle.** Start, complete and cancel, with the `2·minutes + 10` XP award.
- **Weekly study schedule.** Buckets per weekday, clock-face durations, and create/update/delete.
- **Trial exams.** Net scores kept exactly in quarter points, round-half-to-even totals, net-change chains and statistics.
- **Daily goal.** The completion percentage.

The database is replaced by one immutable `Store` record (`entities.dfy`) holding sequences of users, league bands, transactions, streak rows, league-history rows, sessions, schedules, exams, the achievement catalog, the grants and the keys of the `Subjects` table. Every service operation is a pure function from a store (and request) to a result and a new store. The current instant, today's date and the first day of the current month are parameters. Instants are whole seconds since 0001-01-01T00:00Z, which was a Monday, so `DayOfWeek(d) = (d + 1) % 7` with Sunday = 0, as in .NET.

The database's own refusals are part of the model. A row naming a subject or schedule that is not stored breaks a foreign key of the initial migration. Deleting a schedule that a session still names breaks a foreign key with no delete action. A negative `Take` runs as a negative PostgreSQL `LIMIT`. In each case the save or query throws, and the operation fails with nothing stored, except where an earlier save has already committed part of the work. `Entities.RefsExist` states the foreign keys as a store invariant.

Where the database orders rows without a unique key, the model computes one sorted permutation with a stable insertion sort, and states the facts that do not depend on how ties fall for every sorted permutation (`Sorting.IsSortingOf`). Where a fact does depend on the order of tied rows, its lemma says under which condition it holds (for trial exams: no two exams on the same date), and "## Left out" records it. The .NET in-memory `OrderBy` is stable, so for in-memory sorts the computed order is exact.

Modules, one per source component:

| file | module | models |
|---|---|---|
| `wrappers.dfy` | `Wrappers` | `Option` |
| `seqs.dfy` | `Seqs` | LINQ `Take`, `Count`, `Where`, `Sum` and their algebra |
| `sorting.dfy` | `Sorting` | stable sort, sortedness, permutations, total preorders |
| `clock.dfy` | `Clock` | instants, days, hours, weekdays, C# truncating division |
| `entities.dfy` | `Entities` | the entity records, the store, lookups by id |
| `ledger.dfy` | `Ledger` | XP transactions and the balance invariant |
| `ranking.dfy` | `Ranking` | ordering by (TotalXp desc, CurrentStreak desc) and positions in it |
| `leagues.dfy` | `Leagues` | `LeagueService` |
| `seed_leagues.dfy` | `SeedLeagues` | the five seeded league bands |
| `streaks.dfy` | `Streaks` | `StudyStreakService` |
| `leaderboard.dfy` | `Leaderboard` | `LeaderboardService` |
| `achievements.dfy` | `Achievements` | `AchievementService` |
| `pomodoro.dfy` | `Pomodoro` | the session part of `PomodoroService` |
| `schedule.dfy` | `Schedules` | the schedule part of `PomodoroService` |
| `trial_exams.dfy` | `TrialExams` | `TrialExamService` and `TrialSubjectScore.NetScore` |
| `daily_goal.dfy` | `DailyGoals` | `DailyGoal` |

## Model

| member | source | states |
|---|---|---|
| Clock.TruncDiv | CoMentor.Domain/Entities/DailyGoal.cs:13-15 | C# integer division truncates toward zero: for a non-negative dividend the remainder lies in [0, b); for a negative one it lies in (-b, 0] |
| Clock.DayOf | CoMentor.Infrastructure/Services/LeaderboardService.cs:181 | `EarnedAt.Date` is the day whose 24-hour span contains the instant |
| Clock.HourOf | CoMentor.Infrastructure/Services/AchievementService.cs:229 | the UTC hour of an instant is in 0..23 |
| Clock.DayOfWeek | CoMentor.Infrastructure/Services/LeaderboardService.cs:174 | the weekday number is in 0..6 and is 0 exactly on Sundays |
| Clock.WeekStart | CoMentor.Infrastructure/Services/LeaderboardService.cs:174 | `today - DayOfWeek` is the Sunday of the same week: at most 6 days before today and never after it |
| Clock.LocalHour | CoMentor.Infrastructure/Services/AchievementService.cs:234 | `AddHours(3).Hour` is the UTC hour shifted by three, wrapping past midnight |
| Clock.ElapsedWholeMinutes | CoMentor.Infrastructure/Services/PomodoroService.cs:73-74 | `(int)TotalMinutes` of a non-negative span is the number of whole minutes it contains; a negative span gives a non-positive count |
| Entities.FreshId | CoMentor.Infrastructure/Migrations/20251015171456_InitialCreate.cs:18-19 | a new identity value is positive and larger than every id already stored |
| Entities.UserIndex | CoMentor.Infrastructure/Services/StudyStreakService.cs:62 | `FindAsync(userId)` locates the first user with that id, and reports none exactly when no user has it |
| Entities.UserIndexSameKeys | CoMentor.Infrastructure/Services/StudyStreakService.cs:62 | updating user fields other than the id never changes where a user is found |
| Entities.FindUser | CoMentor.Infrastructure/Services/LeaderboardService.cs:51 | a user is found exactly when one with that id exists, and the result is that stored user |
| Entities.FindUserUnique | CoMentor.Infrastructure/Services/LeaderboardService.cs:51 | with unique ids, looking up a stored user's id returns that very user |
| Entities.FindBand | CoMentor.Infrastructure/Services/LeagueService.cs:143 | `Leagues.FindAsync(id)` returns a stored band with that id, or none exactly when no band has it |
| Entities.FindBandUnique | CoMentor.Infrastructure/Services/LeagueService.cs:143 | with unique ids, looking up a stored band's id returns that band |
| Ledger.AddXp | CoMentor.Infrastructure/Services/PomodoroService.cs:111-116 | `TotalXp += amount` changes one user's total by the amount and leaves every other user as it was |
| Ledger.Record | CoMentor.Infrastructure/Services/PomodoroService.cs:96-116 | an award appends exactly one transaction with a fresh id, and raises only the owner's total by the same amount; nothing else in the store changes |
| Ledger.LedgerSumSnoc | CoMentor.Infrastructure/Services/PomodoroService.cs:99-108 | appending a transaction adds its amount to its owner's ledger sum and nothing to anyone else's |
| Ledger.RecordKeepsBalanced | CoMentor.Infrastructure/Services/PomodoroService.cs:96-116 | the invariant "every user's TotalXp equals the sum of their transactions" survives every recorded award |
| Ranking.RanksAtLeastIsTotalPreorder | CoMentor.Infrastructure/Services/LeaderboardService.cs:28-29 | ordering by (TotalXp desc, CurrentStreak desc) compares every pair and is transitive, so sorting by it is well defined |
| Ranking.SortByRank | CoMentor.Infrastructure/Services/LeaderboardService.cs:27-31 | the computed board order is a permutation of the cohort sorted by (TotalXp desc, CurrentStreak desc) |
| Ranking.PositionOf | CoMentor.Infrastructure/Services/LeagueService.cs:75-80 | `FindIndex(...) + 1` is 0 when the id is absent, and otherwise is the 1-based position of the first entry with that id |
| Ranking.PositionBounds | CoMentor.Infrastructure/Services/LeaderboardService.cs:27-31 | in any sorted order, a user sits after everyone strictly ahead of them and before the end of their tie group, whatever order the database picks among ties |
| Ranking.PositionOfUniqueKey | CoMentor.Infrastructure/Services/LeaderboardService.cs:27-31 | a user with no exact (xp, streak) tie has the same position in every sorted order |
| Ranking.FallbackRankAtMostPosition | CoMentor.Infrastructure/Services/LeaderboardService.cs:339-350 | "1 + users with more XP" never exceeds the user's position in the sorted board |
| Ranking.RankOfMember | CoMentor.Infrastructure/Services/LeagueService.cs:75-80 | a member of the cohort is found in the sorted order at a position within their tie group |
| Leagues.Classify | CoMentor.Infrastructure/Services/LeagueService.cs:44-49 | the band for an XP value is a stored band containing it with the greatest RankOrder among those that do; there is none exactly when no band contains the value |
| Leagues.SortByRankOrder | CoMentor.Infrastructure/Services/LeagueService.cs:219-221 | the bands listed by ascending RankOrder are a sorted permutation of the stored bands |
| Leagues.FirstContaining | CoMentor.Infrastructure/Services/LeagueService.cs:231-233 | the first band in list order containing the value, or none exactly when no band contains it |
| Leagues.LowestContaining | CoMentor.Infrastructure/Services/LeagueService.cs:228-235 | the overview's match is a band containing the value with the least RankOrder among those that do; none exactly when no band contains it |
| Leagues.FirstContainingIsLowest | CoMentor.Infrastructure/Services/LeagueService.cs:228-235 | the first band containing the value in RankOrder-sorted order has the least RankOrder of all bands containing it |
| Leagues.OverviewMatchIsClassify | CoMentor.Infrastructure/Services/LeagueService.cs:228-235 | on non-overlapping bands the overview's lowest-first match and the classifier's highest-first choice agree for every XP value |
| Leagues.ContainingIsUnique | CoMentor.Infrastructure/Services/LeagueService.cs:44-49 | on non-overlapping bands at most one band contains any XP value |
| Leagues.LowestBand | CoMentor.Infrastructure/Services/LeagueService.cs:350-352 | the starting band has the least RankOrder of all bands, and there is none only when no band is stored |
| Leagues.NextBand | CoMentor.Infrastructure/Services/LeagueService.cs:70-72 | the next league is a band whose RankOrder is one higher, and is absent exactly when no such band exists |
| Leagues.BandMembers | CoMentor.Infrastructure/Services/LeagueService.cs:240-252 | a league's members are exactly the users whose TotalXp lies in the band, and their number is the count of such user rows, the `Count(...)` the overview reports |
| Leagues.UsersInLeague | CoMentor.Infrastructure/Services/LeagueService.cs:372-381 | an unknown league has no users; a known league has exactly the users whose XP lies in its band, as many as there are such user rows (`usersInLeague.Count`) |
| Leagues.ProgressPercentage | CoMentor.Infrastructure/Services/LeagueService.cs:86-94 | progress is in [0, 100]; a non-positive range or a reached threshold gives 100; otherwise the value is exactly in/range·100 |
| Leagues.Progress | CoMentor.Infrastructure/Services/LeagueService.cs:82-94 | XP in the band is xp − MinXp ≥ 0. With a next band, XP to it is its MinXp − xp and progress is proportional to the distance covered. In the top band, XP to next is 0 and progress is 100 |
| Leagues.UserLeague | CoMentor.Infrastructure/Services/LeagueService.cs:61-109 | there is no league view exactly when the user is missing or no band contains their XP; otherwise it shows the classified band, its progress and the band's member count |
| Leagues.UserLeagueRank | CoMentor.Infrastructure/Services/LeagueService.cs:75-80 | the in-league rank lies between 1 and the member count, within the user's tie group of the sorted band |
| Leagues.MemberIdsUnique | CoMentor.Infrastructure/Services/LeagueService.cs:75-80 | with unique user ids, the id of a user picks out that user among any subset of the users |
| Leagues.NumberEntries | CoMentor.Infrastructure/Services/LeagueService.cs:154-171 | ranks 1, 2, 3 … are assigned by position, and the current user's entry is flagged |
| Leagues.FindEntry | CoMentor.Infrastructure/Services/LeagueService.cs:173-176 | an entry is found exactly when one carries the user's id, and the result is that entry |
| Leagues.CurrentUserEntry | CoMentor.Infrastructure/Services/LeagueService.cs:173-203 | the current user's entry exists exactly when they are a member; its rank is their position in the full sorted order, not just the shown window |
| Leagues.BoardOf | CoMentor.Infrastructure/Services/LeagueService.cs:148-211 | a league board shows the first min(limit, members) members of some sorted order, ranked by position. The current user appears exactly when they are a member, at their position in that same order. TotalUsers is the member count |
| Leagues.BoardFromShows | CoMentor.Infrastructure/Services/LeagueService.cs:148-211 | the board built from a sorted order lists its first members with positions 1, 2, … and holds a current-user entry exactly when the current user is a member |
| Leagues.SameIds | CoMentor.Infrastructure/Services/LeagueService.cs:173-203 | reordering members never changes whether a user is among them |
| Leagues.LeagueLeaderboard | CoMentor.Infrastructure/Services/LeagueService.cs:141-212 | the league board is absent exactly when the league id is unknown; otherwise it is that band's board of its members |
| Leagues.LeaguesOf | CoMentor.Infrastructure/Services/LeagueService.cs:240-252 | the overview items carry their bands in order |
| Leagues.OverviewLeagueId | CoMentor.Infrastructure/Services/LeagueService.cs:224-236 | the overview marks a league only for an existing user whose XP some band contains, and then it marks the lowest such band |
| Leagues.AllLeaguesOverview | CoMentor.Infrastructure/Services/LeagueService.cs:217-259 | the overview lists every band once, by RankOrder, with each band's member count; exactly the user's band is flagged |
| Leagues.CurrentRowIndex | CoMentor.Infrastructure/Services/LeagueService.cs:287-290 | the user's current history row is the first row of theirs marked current, or none exactly when no such row exists |
| Leagues.CheckAndUpdate | CoMentor.Infrastructure/Services/LeagueService.cs:268-333 | Nothing changes exactly when the user is missing, no band matches, or the current row already names the band the XP classifies into. Otherwise the new league is that classified band (the containing band of greatest RankOrder). The previous league is the band of the old current row, or none when there was no current row. That old row is closed with the final XP while every other row is kept, and exactly one new current row for the new league is appended. Promotion holds iff there was no previous band or the new RankOrder exceeds the previous one. Only the history changes |
| Leagues.CheckAndUpdateKeepsOneCurrent | CoMentor.Infrastructure/Services/LeagueService.cs:300-318 | "at most one current history row per user" survives every league check |
| Leagues.CheckAndUpdateLeavesNewRowCurrent | CoMentor.Infrastructure/Services/LeagueService.cs:309-317 | after a change, the appended row is the user's only current row |
| Leagues.CheckAndUpdateIdempotent | CoMentor.Infrastructure/Services/LeagueService.cs:287-296 | a second league check right after the first reports no change and writes nothing |
| Leagues.CheckAndUpdateCounts | CoMentor.Infrastructure/Services/LeagueService.cs:300-318 | after a change the user has exactly one current row, and the closed rows grew by the rows that were current before |
| Leagues.ReplaceCounts | CoMentor.Infrastructure/Services/LeagueService.cs:300-306 | closing a current row adds exactly one closed row for that user |
| Leagues.OnlyCurrentRow | CoMentor.Infrastructure/Services/LeagueService.cs:287-290 | under the invariant, no row other than the one found is current for the user |
| Leagues.Initialize | CoMentor.Infrastructure/Services/LeagueService.cs:338-366 | Initialisation leaves the store unchanged exactly when the user is missing, already has history, or no band exists. Otherwise it appends one current row for the lowest band, whatever the user's XP |
| Leagues.InitializeIdempotent | CoMentor.Infrastructure/Services/LeagueService.cs:343-346 | a second initialisation changes nothing, and initialisation keeps at most one current row per user |
| SeedLeagues.SeededIndex | CoMentor.Infrastructure/Migrations/20251214131141_SeedLeagueData.cs:20-24 | the seeded band position of an XP value is −1 (none) or an index of the five-band table |
| SeedLeagues.SeededCover | CoMentor.Infrastructure/Migrations/20251214131141_SeedLeagueData.cs:20-24 | every seeded band contains a value exactly when it is the band at the computed position, so each XP ≥ 0 lies in exactly one band and a negative XP in none |
| SeedLeagues.ClassifySeeded | CoMentor.Infrastructure/Services/LeagueService.cs:44-49 | on the seeded table the classifier returns exactly the band at that position |
| SeedLeagues.SeededNonOverlapping | CoMentor.Infrastructure/Migrations/20251214131141_SeedLeagueData.cs:20-24 | the five seeded bands are pairwise disjoint |
| SeedLeagues.NextBandSeeded | CoMentor.Infrastructure/Migrations/20251214131141_SeedLeagueData.cs:20-24 | each seeded band's next league is the following row, and Elmas has none |
| SeedLeagues.SeededBoundaries | CoMentor.Infrastructure/Migrations/20251214131141_SeedLeagueData.cs:20-24 | −1 has no band; 0 and 999 are Bronz; 1000 is Gümüş; 14999 is Altın; 15000 is Platin; 50000 is Elmas |
| SeedLeagues.SeededProgress | CoMentor.Infrastructure/Services/LeagueService.cs:82-94 | 500 XP is halfway through Bronz, 500 short of Gümüş; in Elmas the progress is 100 with nothing to go |
| SeedLeagues.SeededPromotion | CoMentor.Infrastructure/Services/LeagueService.cs:309-320 | a user in Altın who reaches 15000 XP is promoted to Platin, and Platin becomes their current row |
| SeedLeagues.SeededDemotion | CoMentor.Infrastructure/Services/LeagueService.cs:289-320 | an Altın user who has dropped to 1500 XP gets a change from Altın to Gümüş that is not a promotion, and the Altın row is closed at 1500 XP |
| SeedLeagues.SeededPlatinumAt15000 | CoMentor.Infrastructure/Services/LeagueService.cs:309-320 | with the seeded bands, 15000 XP falls in Platin |
| Streaks.ActiveIndex | CoMentor.Infrastructure/Services/StudyStreakService.cs:70-71 | the user's active streak row is the first such row, or none exactly when there is none |
| Streaks.Update | CoMentor.Infrastructure/Services/StudyStreakService.cs:60-129 | This is the check-in state machine as written. A missing user changes nothing. Without an active row, a fresh one-day row starts and the streak becomes 1. A row ending today means no change. A row ending yesterday is extended by a day and the streak grows by 1 while TotalXp grows by 10. Any other row is deactivated and a fresh row starts at streak 1. Only the users and streak rows change |
| Streaks.UpdateLeavesActiveToday | CoMentor.Infrastructure/Services/StudyStreakService.cs:76-125 | after a check-in the user has exactly one active row and it ends today |
| Streaks.OnlyActiveRow | CoMentor.Infrastructure/Services/StudyStreakService.cs:70-71 | under the invariant, no other row of the user is active |
| Streaks.UpdateKeepsOneActive | CoMentor.Infrastructure/Services/StudyStreakService.cs:76-125 | "at most one active streak row per user" survives every check-in |
| Streaks.UpdateKeepsInSync | CoMentor.Infrastructure/Services/StudyStreakService.cs:76-125 | "CurrentStreak equals the active row's CurrentDays" survives every check-in |
| Streaks.UpdateSameDayIdempotent | CoMentor.Infrastructure/Services/StudyStreakService.cs:95-98 | checking in twice on the same day is the same as checking in once |
| Streaks.UpdateKeepsUserIndex | CoMentor.Infrastructure/Services/StudyStreakService.cs:60-129 | a check-in never moves or removes any user |
| Streaks.UpdateContinues | CoMentor.Infrastructure/Services/StudyStreakService.cs:99-108 | a check-in the day after the row's last day extends the same row by one day and increments the streak |
| Streaks.ReplaceActiveRow | CoMentor.Infrastructure/Services/StudyStreakService.cs:99-108 | overwriting the user's active row with another active row of the same user keeps it the user's active row |
| Streaks.UpdateStarts | CoMentor.Infrastructure/Services/StudyStreakService.cs:76-89 | a first check-in appends a one-day active row starting today and sets the streak to 1 |
| Streaks.ContinueStep | CoMentor.Infrastructure/Services/StudyStreakService.cs:99-108 | an n-day streak, checked in on the day after its last day, becomes an (n + 1)-day streak in the same row with the same start, and the user's CurrentStreak follows it |
| Streaks.StartStep | CoMentor.Infrastructure/Services/StudyStreakService.cs:76-89 | a first check-in appends a one-day row that starts and ends that day at the end of the streak table, with CurrentStreak 1 |
| Streaks.ConsecutiveCheckIns | CoMentor.Infrastructure/Services/StudyStreakService.cs:76-108 | n check-ins on consecutive days, starting with no active row, leave one active row (the one the first check-in appended) running from the first day to the last with n days, and CurrentStreak n |
| Streaks.RunKeeps | CoMentor.Infrastructure/Services/StudyStreakService.cs:76-108 | any daily step that starts a one-day streak and extends every n-day streak by a day yields, after n days, an n-day streak ending on the last day |
| Streaks.ContinuationUnbalances | CoMentor.Infrastructure/Services/StudyStreakService.cs:107 | on a balanced store, every continuing check-in breaks "TotalXp equals the ledger sum" |
| Streaks.ContinuationUnbalancesExample | CoMentor.Infrastructure/Services/StudyStreakService.cs:99-108 | concretely: a balanced one-user store with a streak ending on day 1, checked in on day 2, ends with TotalXp 10 and a ledger sum of 0 |
| Streaks.UpdateRecorded | CoMentor.Infrastructure/Services/StudyStreakService.cs:99-108 | the corrected check-in changes streaks and users exactly as the original, and additionally records the +10 bonus as a transaction exactly when the streak continues |
| Streaks.UpdateRecordedKeepsBalanced | CoMentor.Infrastructure/Services/StudyStreakService.cs:99-108 | the corrected check-in keeps every user's TotalXp equal to their ledger sum |
| Streaks.LongestOf | CoMentor.Infrastructure/Services/StudyStreakService.cs:46 | the longest streak is at least every row's CurrentDays and is attained by some row; it is 0 with no rows |
| Streaks.FirstActive | CoMentor.Infrastructure/Services/StudyStreakService.cs:36 | the first active row of the listing, or none exactly when no row is active |
| Streaks.Status | CoMentor.Infrastructure/Services/StudyStreakService.cs:18-58 | The status fails exactly when the user is missing. Otherwise it reports the user's CurrentStreak and a history that is the user's rows newest first. The longest streak bounds every row of the user and is attained by one, or is 0. "Studied today" implies an active row ends today |
| Streaks.HasStudiedTodayIff | CoMentor.Infrastructure/Services/StudyStreakService.cs:36-42 | under the one-active-row invariant, "studied today" holds exactly when the active row ends today |
| Leaderboard.Cohort | CoMentor.Infrastructure/Services/LeaderboardService.cs:65-66 | a cohort is exactly the users matching the school or grade filter (all users for the general board), counted by `CountIf` |
| Leaderboard.BuildRankings | CoMentor.Infrastructure/Services/LeaderboardService.cs:268-305 | the k-th shown user gets rank k, the league of their XP, and the current-user flag |
| Leaderboard.FindItem | CoMentor.Infrastructure/Services/LeaderboardService.cs:317 | a shown entry is found exactly when one carries the id |
| Leaderboard.FallbackRank | CoMentor.Infrastructure/Services/LeaderboardService.cs:329-350 | "1 + users with more XP" lies in 1..|cohort| + 1, and within 1..|cohort| for a member |
| Leaderboard.CurrentUserRank | CoMentor.Infrastructure/Services/LeaderboardService.cs:308-350 | The current user's rank is absent without a current user. When the user is shown, it is their shown entry. Otherwise it is the XP-only fallback rank, which ignores the streak tie-break |
| Leaderboard.Board | CoMentor.Infrastructure/Services/LeaderboardService.cs:27-43 | the in-memory part of a board, used by its callers only for a non-negative limit: it shows the first min(limit, cohort) users of some ranking of the cohort, with positional ranks, and TotalUsers is the full cohort size |
| Leaderboard.GeneralLeaderboard | CoMentor.Infrastructure/Services/LeaderboardService.cs:25-44 | the general board fails exactly for a negative limit, which the database query's LIMIT refuses (line 30); otherwise it ranks all users and counts all users |
| Leaderboard.SchoolLeaderboard | CoMentor.Infrastructure/Services/LeaderboardService.cs:49-83 | a missing requester or an empty school name gives an empty board with TotalUsers 0 before any query runs; otherwise a negative limit fails the query (line 69), and any other limit gives a board that ranks exactly the requester's schoolmates |
| Leaderboard.GradeLeaderboard | CoMentor.Infrastructure/Services/LeaderboardService.cs:88-124 | a missing requester or an unset grade gives an empty board with TotalUsers 0 before any query runs; otherwise a negative limit fails the query (line 108), and any other limit gives a board that ranks exactly the requester's grade |
| Leaderboard.RequesterRank | CoMentor.Infrastructure/Services/LeaderboardService.cs:314-350 | a requester inside the cohort always receives a rank between 1 and TotalUsers |
| Leaderboard.FallbackAtMostPosition | CoMentor.Infrastructure/Services/LeaderboardService.cs:326-350 | a requester outside the shown window gets a fallback rank no worse than their position in the full ordering |
| Leaderboard.AllLeagues | CoMentor.Infrastructure/Services/LeaderboardService.cs:129-141 | the combined view fails exactly for a negative limit, which the first (general) board already refuses; otherwise it has the general board and includes the school or grade board exactly when it shows at least one user |
| Leaderboard.AllLeaguesIncludes | CoMentor.Infrastructure/Services/LeaderboardService.cs:129-141 | the view exists with a school (grade) board exactly when the requester exists, has a school (grade), and the limit is positive; a zero limit gives the general board alone |
| Leaderboard.TiedCounts | CoMentor.Infrastructure/Services/LeaderboardService.cs:27-31 | in XP [500, 500, 300], two users rank strictly above the third and the first two tie |
| Leaderboard.CountThree | CoMentor.Infrastructure/Services/LeaderboardService.cs:42 | a three-user count is the sum of the three individual tests |
| Leaderboard.CountTwo | CoMentor.Infrastructure/Services/LeaderboardService.cs:42 | a two-user count is the sum of the two individual tests |
| Leaderboard.TiedBoard | CoMentor.Infrastructure/Services/LeaderboardService.cs:268-305 | for XP [500, 500, 300] every board ranks 1, 2, 3: equal XP gets distinct positional ranks, and the 300-XP user is third |
| Leaderboard.TiedOrder | CoMentor.Infrastructure/Services/LeaderboardService.cs:27-31 | every sorting of [500, 500, 300] puts both 500-XP users first and the 300-XP user last |
| Leaderboard.TiedXpGetsDistinctRanks | CoMentor.Infrastructure/Services/LeaderboardService.cs:25-44 | the general board of XP [500, 500, 300] carries ranks 1, 2, 3 |
| Leaderboard.StreakCounts | CoMentor.Infrastructure/Services/LeaderboardService.cs:28-29 | with equal XP the longer streak ranks strictly above, yet nobody has more XP |
| Leaderboard.StreakBoard | CoMentor.Infrastructure/Services/LeaderboardService.cs:326-350 | with limit 1, the second of two 500-XP users (by streak) is outside the window and receives fallback rank 1, the same as the shown leader |
| Leaderboard.FallbackIgnoresStreak | CoMentor.Infrastructure/Services/LeaderboardService.cs:339-350 | the general board of that store shows the streak leader at rank 1 and also reports the requester at rank 1 |
| Leaderboard.EarnedNoEarlierIsTotalPreorder | CoMentor.Infrastructure/Services/LeaderboardService.cs:151 | newest-first by EarnedAt is a total preorder, so the history sort is well defined |
| Leaderboard.XpHistory | CoMentor.Infrastructure/Services/LeaderboardService.cs:147-163 | the history fails exactly for a negative limit, which the query's LIMIT refuses (line 152); otherwise it holds min(limit, own transactions) of the user's own transactions, newest first; it is a prefix of some sorting of them, and with a large enough limit it is all of them |
| Leaderboard.HistoryWindow | CoMentor.Infrastructure/Services/LeaderboardService.cs:147-163 | a window of a date-sorted list of the user's transactions holds only the user's own transactions from the log, still newest first |
| Leaderboard.WindowSumMonotonic | CoMentor.Infrastructure/Services/LeaderboardService.cs:181-183 | with non-negative amounts, a wider calendar window never sums to less XP |
| Leaderboard.WindowSumEverything | CoMentor.Infrastructure/Services/LeaderboardService.cs:181-183 | a window covering every day sums to the user's whole ledger |
| Leaderboard.WindowSumAtMostLedger | CoMentor.Infrastructure/Services/LeaderboardService.cs:181-183 | with non-negative amounts, no window sums to more than the ledger |
| Leaderboard.RankIn | CoMentor.Infrastructure/Services/LeaderboardService.cs:186-208 | a summary rank is 1 + the number in the cohort with more XP, out of the cohort size, and lies in 1..size for a member |
| Leaderboard.XpSummaryOf | CoMentor.Infrastructure/Services/LeaderboardService.cs:165-250 | A missing user gives an empty summary. Otherwise: today, week and month XP are the user's sums over today, from the week's Sunday, and from the first of the month. The general rank lies in 1..all users. School and grade ranks are present exactly when a school or grade is set, and lie within their cohorts. The league part is the user's league view |
| Leaderboard.XpSummaryWindows | CoMentor.Infrastructure/Services/LeaderboardService.cs:181-183 | with non-negative amounts, 0 ≤ today ≤ week and today ≤ month; on a balanced store, week and month never exceed TotalXp |
| Leaderboard.ZeroWindow | CoMentor.Infrastructure/Services/LeaderboardService.cs:181-183 | an empty window sums to 0 |
| Leaderboard.SummaryRankAtMostBoardRank | CoMentor.Infrastructure/Services/LeaderboardService.cs:186 | the summary's general rank is never worse than the rank the user gets on the general board |
| Leaderboard.GeneralBoardRankBound | CoMentor.Infrastructure/Services/LeaderboardService.cs:25-44 | on the general board every listed user's rank is at least 1 + the number of users with more XP |
| Leaderboard.PrefixRankBound | CoMentor.Infrastructure/Services/LeaderboardService.cs:25-44 | on any board numbered from a sorted cohort, each listed user belongs to the cohort and is ranked no better than 1 + the number of cohort users with more XP |
| Leaderboard.CohortOfAll | CoMentor.Infrastructure/Services/LeaderboardService.cs:27-31 | the general cohort is every user, in store order |
| Achievements.HourWindowsInUtc | CoMentor.Infrastructure/Services/AchievementService.cs:223-243 | the night-owl window (local 22:00–04:00) is UTC hours {19, 20, 21, 22, 23, 0}; the early-bird window (local 06:00–08:00) is UTC hours {3, 4} |
| Achievements.NewerOrSameIsTotalPreorder | CoMentor.Infrastructure/Services/AchievementService.cs:249 | newest-first by ExamDate is a total preorder |
| Achievements.ConsistentGrowth | CoMentor.Infrastructure/Services/AchievementService.cs:245-257 | growth is false for fewer than three exams; otherwise it holds exactly when, in some newest-first order, the three newest scores strictly increase from oldest to newest |
| Achievements.ConsistentGrowthAnyOrder | CoMentor.Infrastructure/Services/AchievementService.cs:245-257 | with distinct exam dates the verdict is the same for every newest-first order |
| Achievements.NonZeroDayHasSession | CoMentor.Infrastructure/Services/AchievementService.cs:259-268 | a day with non-zero completed minutes has a completed session starting that day |
| Achievements.DailyRecordIff | CoMentor.Infrastructure/Services/AchievementService.cs:259-268 | for a positive target, any day reaching it is a daily record, and the record holds exactly when the start day of some session, completed or not, reaches the target |
| Achievements.DailyRecordAnyOrder | CoMentor.Infrastructure/Services/AchievementService.cs:259-268 | the daily record is the same for any order of the loaded sessions |
| Achievements.EarnedShape | CoMentor.Infrastructure/Services/AchievementService.cs:129-205 | A met XP or streak threshold earns every achievement except "Durmak Yok" and "Konu Ekspertizi". Those two are decided by their own predicate alone, which overrides the threshold result. An achievement whose name is none of the thirteen seeded names is decided by its thresholds alone. StudyHoursRequirement is never consulted |
| Achievements.StreakRules | CoMentor.Infrastructure/Services/AchievementService.cs:129-155 | each streak-based rule earns its achievement exactly when the thresholds are met or the current streak reaches 7, 30, 90 or 30 days respectively |
| Achievements.NamedRules | CoMentor.Infrastructure/Services/AchievementService.cs:158-205 | each of the seven other additive rules earns its achievement exactly when the thresholds are met or its own signal holds: a TYT score ≥ 100, 3000 focus minutes, 20 exams, a night session, an early session, a weekly rank ≤ 3, or the Diamond/Elmas league |
| Achievements.TytCenturyAdds | CoMentor.Infrastructure/Services/AchievementService.cs:158-160 | adding an exam turns the "100 Kulübü" signal on exactly when that exam is a TYT exam with TotalScore at least 100 |
| Achievements.FocusMinutesAdds | CoMentor.Infrastructure/Services/AchievementService.cs:163-168 | the focus minutes are a sum: one more session adds its ActualDurationMinutes (0 when absent) when it is a completed STUDY session, and nothing otherwise |
| Achievements.NightSessionAdds | CoMentor.Infrastructure/Services/AchievementService.cs:177-179 | adding a session turns the "Gece Kuşu" signal on exactly when it is completed and its end time (its start time when it has none) lies in the local 22:00–04:00 window |
| Achievements.EarlySessionAdds | CoMentor.Infrastructure/Services/AchievementService.cs:187-189 | adding a session turns the "Erkenci Tayfa" signal on exactly when it started in the local 06:00–08:00 window, completed or not |
| Achievements.SignalsAnyOrder | CoMentor.Infrastructure/Services/AchievementService.cs:158-189 | the TYT, exam-count, focus-minute, night and early signals are the same for any order of the loaded exams and sessions |
| Achievements.EarnedFromSignals | CoMentor.Infrastructure/Services/AchievementService.cs:127-205 | the rule switch reads nothing but the user, the exam and session signals, the league name and the weekly rank: two inputs that agree on those get the same verdict for every entry |
| Achievements.EarnedAnyOrder | CoMentor.Infrastructure/Services/AchievementService.cs:127-205 | when no two exams share a date, every entry's verdict is the same for any order in which the user's exams and sessions are loaded |
| Achievements.SeedIfEmpty | CoMentor.Infrastructure/Services/AchievementService.cs:272-294 | a non-empty catalog is untouched; an empty one is seeded with the thirteen active entries, ids 1..13 |
| Achievements.EarnedIds | CoMentor.Infrastructure/Services/AchievementService.cs:116 | the earned set is exactly the achievement ids of the user's grants |
| Achievements.AchievementIds | CoMentor.Infrastructure/Services/AchievementService.cs:116-119 | the projection lists each entry's id, in order |
| Achievements.GrantedIds | CoMentor.Infrastructure/Services/AchievementService.cs:207-215 | the projection lists each grant's achievement id, in order |
| Achievements.GrantEach | CoMentor.Infrastructure/Services/AchievementService.cs:127-215 | granting keeps every existing grant and appends, in catalog order, one grant stamped now for each earned candidate and no other |
| Achievements.CheckAndGrant | CoMentor.Infrastructure/Services/AchievementService.cs:101-219 | A missing user changes nothing, and the catalog is not even seeded. Otherwise the catalog is seeded if empty, old grants are kept, and the new grants are exactly the earned candidates: active entries the user has not yet earned |
| Achievements.CheckAndGrantSound | CoMentor.Infrastructure/Services/AchievementService.cs:116-215 | every new grant names an active catalog entry that the user had not earned and now meets |
| Achievements.CheckAndGrantComplete | CoMentor.Infrastructure/Services/AchievementService.cs:116-215 | every active entry not yet earned whose condition holds is granted in this call |
| Achievements.SignalsIgnoreGrants | CoMentor.Infrastructure/Services/AchievementService.cs:104-126 | the rule inputs do not depend on the catalog or the grants |
| Achievements.CheckAndGrantIdempotent | CoMentor.Infrastructure/Services/AchievementService.cs:116-119 | running the evaluation again, even later, adds no grant |
| Pomodoro.OpenIndex | CoMentor.Infrastructure/Services/PomodoroService.cs:36-40 | the user's open session is the first one not completed and not ended, or none exactly when there is none |
| Pomodoro.Start | CoMentor.Infrastructure/Services/PomodoroService.cs:28-60 | Starting fails exactly when the user is missing, already has an open session, or the request names a subject or schedule that is not stored (the insert breaks a foreign key, CoMentor.Infrastructure/Migrations/20251015171456_InitialCreate.cs:340-349). Otherwise it appends one open session with a fresh id, started now, with 0 XP, no actual minutes and the requested fields. Nothing else changes |
| Pomodoro.StartThenActive | CoMentor.Infrastructure/Services/PomodoroService.cs:146-156 | the started session is the user's active session, and a second start is refused |
| Pomodoro.StartKeepsAtMostOneOpen | CoMentor.Infrastructure/Services/PomodoroService.cs:36-54 | "at most one open session per user" survives every start |
| Pomodoro.StartKeepsRefs | CoMentor.Infrastructure/Services/PomodoroService.cs:42-54 | a successful start keeps every foreign key of the store satisfied |
| Pomodoro.SessionIndex | CoMentor.Infrastructure/Services/PomodoroService.cs:64-66 | a session is found only by its id together with its owner, and none exactly when no such session exists |
| Pomodoro.CreditedMinutes | CoMentor.Infrastructure/Services/PomodoroService.cs:73-77 | credited minutes are at least 1. A supplied value is used, raised to 1 if smaller. Without one, the whole minutes elapsed since start are used, raised to 1 |
| Pomodoro.SessionXp | CoMentor.Infrastructure/Services/PomodoroService.cs:79-84 | break sessions earn 0; a STUDY session of at least one minute earns an even number of XP of at least 12 |
| Pomodoro.Award | CoMentor.Infrastructure/Services/PomodoroService.cs:95-125 | no XP means no change; positive XP is recorded as one POMODORO transaction for the session and followed by a league check; sessions are untouched |
| Pomodoro.Complete | CoMentor.Infrastructure/Services/PomodoroService.cs:62-128 | Completion fails exactly when the session is missing, foreign, or already completed (a cancelled one still completes). Otherwise the session is ended now as completed with the credited minutes and its XP. Notes change only when supplied, and the XP is awarded |
| Pomodoro.CompleteKeepsBalanced | CoMentor.Infrastructure/Services/PomodoroService.cs:96-125 | completing a session keeps every user's TotalXp equal to their ledger sum |
| Pomodoro.CompleteAwards | CoMentor.Infrastructure/Services/PomodoroService.cs:80-116 | A completed STUDY session earns 2·minutes + 10 ≥ 12 XP, appends exactly one POMODORO transaction of that amount naming the session, and raises the user's total by it. A break earns 0 and touches neither ledger nor users |
| Pomodoro.Cancel | CoMentor.Infrastructure/Services/PomodoroService.cs:130-144 | Cancelling fails exactly when the session is missing, foreign or completed. Otherwise it ends the session now with 0 minutes, leaves it not completed, and changes nothing else |
| Pomodoro.SessionIndexSameKeys | CoMentor.Infrastructure/Services/PomodoroService.cs:64-66 | changing session fields other than id and owner never changes where a session is found |
| Pomodoro.CancelThenComplete | CoMentor.Infrastructure/Services/PomodoroService.cs:130-144 | a cancelled session is no longer active, and can still be cancelled again or completed |
| Pomodoro.CompleteThenNoMore | CoMentor.Infrastructure/Services/PomodoroService.cs:68-69 | once completed, a session can be neither completed nor cancelled again |
| Pomodoro.ClosingKeepsAtMostOneOpen | CoMentor.Infrastructure/Services/PomodoroService.cs:87-93 | closing sessions never opens one, so "at most one open session" is kept |
| Pomodoro.CompleteKeepsAtMostOneOpen | CoMentor.Infrastructure/Services/PomodoroService.cs:87-93 | completion keeps at most one open session per user |
| Pomodoro.CancelKeepsAtMostOneOpen | CoMentor.Infrastructure/Services/PomodoroService.cs:138-140 | cancellation keeps at most one open session per user |
| Pomodoro.ActiveSession | CoMentor.Infrastructure/Services/PomodoroService.cs:146-156 | the active session is the user's open session, and there is none exactly when none is open |
| Schedules.DayName | CoMentor.Infrastructure/Services/PomodoroService.cs:18 | a weekday has a Turkish name exactly when its number is in 0..6 |
| Schedules.DayNamesOfWeek | CoMentor.Infrastructure/Services/PomodoroService.cs:18 | every computed weekday has a name, and the seven names are distinct |
| Schedules.ClockSeconds | CoMentor.Infrastructure/Services/PomodoroService.cs:392 | a `TimeOnly` difference is the way round the clock face: in [0, 86400), landing on the end time from the start, and the plain difference when the end is later |
| Schedules.DurationMinutes | CoMentor.Infrastructure/Services/PomodoroService.cs:392 | a schedule lasts a whole number of minutes in [0, 1440): the whole minutes of the clock-face difference |
| Schedules.DurationExamples | CoMentor.Infrastructure/Services/PomodoroService.cs:392 | 22:00→01:00 lasts 180 minutes; equal times last 0; 09:00:30→09:00 lasts 1439 |
| Schedules.MapToScheduleDto | CoMentor.Infrastructure/Services/PomodoroService.cs:379-396 | a schedule maps to a view exactly when its day is in 0..6; the view carries that day's name and its duration |
| Schedules.Dtos | CoMentor.Infrastructure/Services/PomodoroService.cs:303 | views correspond one-for-one, in order, to schedules with valid days |
| Schedules.StartsNoLaterIsTotalPreorder | CoMentor.Infrastructure/Services/PomodoroService.cs:290-291 | ordering by start time is a total preorder |
| Schedules.DayEntry | CoMentor.Infrastructure/Services/PomodoroService.cs:297-304 | a day's entry lists exactly that day's active schedules of the user, ordered by start time, under its name; its total is their summed duration |
| Schedules.Weekly | CoMentor.Infrastructure/Services/PomodoroService.cs:284-309 | the week has exactly seven entries, days 0..6 in order, each listing only its own day's active schedules with their total duration |
| Schedules.WeeklyTotalsAddUp | CoMentor.Infrastructure/Services/PomodoroService.cs:284-309 | the first n day totals add up to the duration of all the user's active schedules on days before n, so the week's totals cover every active schedule with a valid day exactly once |
| Schedules.Today | CoMentor.Infrastructure/Services/PomodoroService.cs:311-328 | today's schedule is the weekly entry for today's weekday |
| Schedules.CreateSchedule | CoMentor.Infrastructure/Services/PomodoroService.cs:207-237 | Creation is refused exactly when the day is outside 0..6, the user is missing, the subject is not stored, or either time fails to parse. Otherwise one active schedule of the user, with the requested day and the parsed times, is appended and nothing else changes |
| Schedules.CreateKeepsDaysInRange | CoMentor.Infrastructure/Services/PomodoroService.cs:207-237 | creation never stores a day outside 0..6 |
| Schedules.CreateKeepsRefs | CoMentor.Infrastructure/Services/PomodoroService.cs:211-234 | a successful creation keeps every foreign key of the store satisfied |
| Schedules.ScheduleIndex | CoMentor.Infrastructure/Services/PomodoroService.cs:241-242 | a schedule is found only by its id together with its owner |
| Schedules.Patched | CoMentor.Infrastructure/Services/PomodoroService.cs:247-263 | an update overwrites exactly the supplied fields; a time that fails to parse is ignored; id and owner never change |
| Schedules.PatchedEmptyAndIdempotent | CoMentor.Infrastructure/Services/PomodoroService.cs:247-263 | an empty request changes nothing, and applying the same request twice is the same as once |
| Schedules.UpdateScheduleAsWritten | CoMentor.Infrastructure/Services/PomodoroService.cs:239-268 | as written: an unknown schedule is not found; a requested subject that is not stored fails the save and nothing is stored; otherwise the patched row is saved, and the reply fails after the save when the saved day has no name |
| Schedules.UpdateAsWrittenStoresUnnamedDay | CoMentor.Infrastructure/Services/PomodoroService.cs:250-251 | a request with day 7 is saved, the reply fails, and the schedule vanishes from every day of the weekly view |
| Schedules.UpdateSchedule | CoMentor.Infrastructure/Services/PomodoroService.cs:239-268 | corrected: a requested day outside 0..6 is refused without saving, and a requested subject that is not stored fails the save as in the source; otherwise the row is replaced by its patched version and its view is returned |
| Schedules.UpdateKeepsDaysInRange | CoMentor.Infrastructure/Services/PomodoroService.cs:239-268 | on valid data, the corrected update fails exactly when the schedule is unknown, the requested subject is not stored, or the requested day is invalid; it keeps every day in 0..6 and agrees with the original code whenever it succeeds |
| Schedules.UpdateKeepsRefs | CoMentor.Infrastructure/Services/PomodoroService.cs:247-265 | a successful corrected update keeps every foreign key of the store satisfied: schedule ids are untouched and the subject is a stored one |
| Schedules.DeleteSchedule | CoMentor.Infrastructure/Services/PomodoroService.cs:270-282 | deletion fails exactly when the user owns no such schedule, or some session was started from it (the session's foreign key has no delete action, CoMentor.Infrastructure/Migrations/20251015171456_InitialCreate.cs:340-344); otherwise it removes that one row and keeps the order of the rest |
| Schedules.DeleteKeepsDaysInRange | CoMentor.Infrastructure/Services/PomodoroService.cs:270-282 | deletion keeps every day in 0..6 |
| Schedules.DeleteKeepsRefs | CoMentor.Infrastructure/Services/PomodoroService.cs:270-282 | a successful deletion leaves no session naming the removed schedule, so every foreign key stays satisfied |
| TrialExams.NetQuarters | CoMentor.Domain/Entities/TrialSubjectScore.cs:11 | four times the net is 4·correct − wrong exactly. With wrong ≥ 0 the net is at most the correct count, with equality iff wrong = 0. Within the request ranges it lies in [−25, 100] |
| TrialExams.NetExamples | CoMentor.Domain/Entities/TrialSubjectScore.cs:8-12 | 80 correct and 20 wrong give 75; empty answers and time spent do not affect the net |
| TrialExams.RoundQuarters | CoMentor.Infrastructure/Services/TrialExamService.cs:273-280 | `Math.Round` of a quarter-point total is the nearest integer, and on an exact half the even one |
| TrialExams.RoundQuartersUnique | CoMentor.Infrastructure/Services/TrialExamService.cs:273-280 | any integer that is nearest with ties to even equals the computed rounding |
| TrialExams.RoundExamples | CoMentor.Infrastructure/Services/TrialExamService.cs:273-280 | 0.5 and −0.5 round to 0, 1.5 and 2.5 to 2, and 74.75 to 75 |
| TrialExams.ToScores | CoMentor.Infrastructure/Services/TrialExamService.cs:43-54 | each submitted subject score becomes one stored score with the same counts, in order |
| TrialExams.CreateExam | CoMentor.Infrastructure/Services/TrialExamService.cs:21-64 | Creation fails exactly when the user is missing. Otherwise one exam with a fresh id is appended. When every score names a stored subject, the exam has the requested scores and TotalScore is their rounded total net. When one does not, the exam saved by the first save (line 40) stays behind with no scores and TotalScore 0, and the call fails |
| TrialExams.ExamIndex | CoMentor.Infrastructure/Services/TrialExamService.cs:71-76 | an exam is found only by its id together with its owner |
| TrialExams.GetExam | CoMentor.Infrastructure/Services/TrialExamService.cs:146-157 | reading returns the owner's exam with that id, or nothing for an unknown or foreign exam |
| TrialExams.Revised | CoMentor.Infrastructure/Services/TrialExamService.cs:79-116 | The name changes only when non-empty, other fields only when supplied. Scores are replaced, and TotalScore recomputed, only for a non-empty score list. Id and owner never change |
| TrialExams.UpdateExam | CoMentor.Infrastructure/Services/TrialExamService.cs:69-121 | updating fails, storing nothing, for an unknown or foreign exam and for replacement scores that name a subject that is not stored; otherwise exactly that exam is replaced by its revision |
| TrialExams.CreateKeepsScoresConsistent | CoMentor.Infrastructure/Services/TrialExamService.cs:39-60 | after creation, refused scores included, every stored TotalScore is the rounded net of its scores |
| TrialExams.UpdateKeepsScoresConsistent | CoMentor.Infrastructure/Services/TrialExamService.cs:92-116 | an update keeps every stored TotalScore equal to the rounded net of its scores |
| TrialExams.CreateExamKeepsRefs | CoMentor.Infrastructure/Services/TrialExamService.cs:21-64 | creation, completed or refused, keeps every foreign key of the store satisfied |
| TrialExams.UpdateExamKeepsRefs | CoMentor.Infrastructure/Services/TrialExamService.cs:69-121 | a successful update keeps every foreign key of the store satisfied |
| TrialExams.DeleteExam | CoMentor.Infrastructure/Services/TrialExamService.cs:126-141 | deletion fails for an unknown or foreign exam; otherwise exactly that one exam is removed |
| TrialExams.UpdateLeavesOthers | CoMentor.Infrastructure/Services/TrialExamService.cs:71-76 | an update never changes another user's exams |
| TrialExams.DeleteLeavesOthers | CoMentor.Infrastructure/Services/TrialExamService.cs:128-133 | a deletion never changes another user's exams |
| TrialExams.FilterSkips | CoMentor.Infrastructure/Services/TrialExamService.cs:71-76 | replacing an exam that a filter rejects by another it rejects leaves the filtered list unchanged |
| TrialExams.FilterDrops | CoMentor.Infrastructure/Services/TrialExamService.cs:128-133 | removing an exam that a filter rejects leaves the filtered list unchanged |
| TrialExams.OlderOrSameIsTotalPreorder | CoMentor.Infrastructure/Services/TrialExamService.cs:180 | oldest-first by ExamDate is a total preorder |
| TrialExams.OldestFirst | CoMentor.Infrastructure/Services/TrialExamService.cs:166-180 | the listing's processing order is a sorting, oldest first, of exactly the user's exams of the requested type (all types when none or empty is given) |
| TrialExams.Chain | CoMentor.Infrastructure/Services/TrialExamService.cs:182-204 | item i carries exam i's net; the first change is absent and each later change is that net minus the previous one |
| TrialExams.ChangesTelescope | CoMentor.Infrastructure/Services/TrialExamService.cs:182-204 | the changes of the first n items add up to the n-th net minus the first |
| TrialExams.ItemNewerOrSameIsTotalPreorder | CoMentor.Infrastructure/Services/TrialExamService.cs:207 | newest-first by date is a total preorder on list items |
| TrialExams.MaxNet | CoMentor.Infrastructure/Services/TrialExamService.cs:262 | the highest net bounds every exam's net and is attained by one |
| TrialExams.NewestIsLatest | CoMentor.Infrastructure/Services/TrialExamService.cs:248-268 | the last exam of an oldest-first order has the latest date |
| TrialExams.StatsOf | CoMentor.Infrastructure/Services/TrialExamService.cs:221-269 | With no exams, every statistic is zero or absent. Otherwise: the count, the net sum, the highest net and the latest date summarise the selected exams. The last change is present exactly with at least two exams, and is then the newest net minus the second newest |
| TrialExams.StatsFrom | CoMentor.Infrastructure/Services/TrialExamService.cs:246-268 | for a non-empty oldest-first order, the statistics summarise the selection |
| TrialExams.AverageAtMostHighest | CoMentor.Infrastructure/Services/TrialExamService.cs:261-268 | the net sum is at most the highest net times the count, so the average net never exceeds the highest |
| TrialExams.MinNetLower | CoMentor.Infrastructure/Services/TrialExamService.cs:246 | the lowest net bounds every exam's net from below |
| TrialExams.ListExams | CoMentor.Infrastructure/Services/TrialExamService.cs:162-216 | the listing holds one item per selected exam, is a newest-first sorting of the oldest-first change chain, and carries the same statistics as the stats call |
| TrialExams.StatsMatchChain | CoMentor.Infrastructure/Services/TrialExamService.cs:248-259 | when the statistics and the listing see the selected exams in the same oldest-first order, the stats' last change equals the change shown on the newest item of the listing's chain |
| TrialExams.OldestFirstUnique | CoMentor.Infrastructure/Services/TrialExamService.cs:179 | without tied exam dates, any two oldest-first orders of the same exams are the same sequence |
| TrialExams.StatsAnyOrder | CoMentor.Infrastructure/Services/TrialExamService.cs:248-259 | with no two selected exams on the same date, the last change is the newest net minus the second newest in any oldest-first order of the selection |
| TrialExams.StatsMatchListOrder | CoMentor.Infrastructure/Services/TrialExamService.cs:172-180 | with no two selected exams on the same date, the listing's newest change equals the statistics' last change, whatever oldest-first order the listing's query returns |
| DailyGoals.NewGoal | CoMentor.Domain/Entities/DailyGoal.cs:9-15 | a fresh goal has nothing studied, three target subjects, nothing completed and a 0 percent completion |
| DailyGoals.CompletionPercentage | CoMentor.Domain/Entities/DailyGoal.cs:13-15 | The percentage is 0 without a positive target. For non-negative study it is in [0, 100], and 100 once the target is met. Below 100 it is the whole percent truncated: p·target ≤ 100·actual < (p + 1)·target |
| DailyGoals.PercentageMonotonic | CoMentor.Domain/Entities/DailyGoal.cs:13-15 | for a fixed positive target, studying more never lowers the percentage |

## Left out

- Controllers, authentication, dependency injection, Entity Framework machinery and HTTP status mapping are left out. They are wiring around the services modelled here.
- Concurrency is left out: the check-then-insert races in session start, league initialisation, achievement seeding and the `TotalXp +=` updates. The model is sequential.
- The clock is a parameter, not a read of `DateTime.UtcNow`. The first day of the current month is also a parameter, because Gregorian month arithmetic is not modelled.
- `TimeOnly.TryParse` is a parameter of the schedule operations. Subjects are kept only as the set of their keys; subject management is not part of this model.
- 32-bit integer overflow is not modelled: every `int` is unbounded. This affects `2·minutes + 10` for absurd minute counts, `actual·100` in the goal percentage, and `TotalXp +=`. For realistic values none of them overflows.
- Leagues.ProgressPercentage: kept as an exact real. The source computes it in `double` and rounds it to one decimal for display.
- The trial-exam average is stated as net sum over count in quarter points rather than as a rounded `double`. Per-item nets and changes are kept in exact quarter points. Rounding them to two decimals is exact on quarter values.
- Display-only fields are left out: names, surnames, avatars, icons, colours, descriptions, Turkish league and grade names, and subject names.
- `CreatedAt` and `UpdatedAt` timestamps are left out. So are the `Description` text of transactions and the DTO field copies.
- Read-only listings with no logic beyond a filter are left out: `GetAllLeaguesAsync` and `GetLeagueByIdAsync` (except the band ordering), `GetUserLeagueHistoryAsync`, `GetAchievementsAsync`, `GetUserAchievementsAsync` and `CreateAchievementAsync`. Also left out: Pomodoro history and statistics (`GetPomodoroHistoryAsync`, `GetPomodoroStatsAsync`), and the `user_stats` view service, whose definition is not part of this model.
- `GetScheduleByIdAsync` looks a schedule up by id alone. The model maps the updated row directly, which is the same row when schedule ids are unique.
- Ties in the database's `ORDER BY` on schedule start times are modelled as a stable sort per day.
- Schedules.Weekly: a schedule whose stored day is outside 0..6 appears under no day, as in the source. The corrected update and create never store such a day.
- The request validation attributes are modelled only where the service relies on them. The schedule day range becomes a refusal. The trial-exam score ranges appear only in the bound of `TrialExams.NetQuarters`.
- The `Achievement` entity class is not part of this model. Its columns follow the initial migration, and seeded entries are taken to be active with ids 1..13 in seeding order.
- Streaks.Status: returns no status where the source throws for a missing user.
- StatsMatchChain: promised only when the listing and the statistics see the exams in the same oldest-first order. The two methods each run their own `OrderByDescending(ExamDate)` query, so exams on the same date may come back in different orders, and then the stats' `LastChange` can differ from the newest listed item's `NetChange`. For exams with distinct dates, `TrialExams.StatsMatchListOrder` and `TrialExams.StatsAnyOrder` state the agreement for every order.
- Clock.ElapsedWholeMinutes: instants are whole seconds, while `(int)(endTime - StartTime).TotalMinutes` works on 100-nanosecond ticks. When the start or the end has a fractional second, the credited minutes can differ by one at a minute boundary: from 0.9 s to 60.1 s, .NET gives 0 minutes and the model, flooring both to 0 s and 60 s, gives 1.
- Where the description of the system and the code differ, the model follows the code:
  - The daily-record achievement counts completed sessions of any type, not only STUDY sessions.
  - The "Elmas Ligi" achievement is keyed on the league name "Diamond" or "Elmas".
  - The summary's league part is the full league view of the user.

## Findings

| source | as written | input that shows it | evidently intended | confidence | as-written member | corrected member |
|---|---|---|---|---|---|---|
| CoMentor.Infrastructure/Services/StudyStreakService.cs:107 | a continuing check-in adds the +10 bonus straight to `TotalXp` and appends no `XpTransaction` | a user with 0 XP and no transactions whose active streak ended yesterday checks in: TotalXp becomes 10 while their transactions still sum to 0 | every XP change goes through the ledger, as the Pomodoro award does, so TotalXp stays equal to the sum of the user's transactions | high (not executed) | Streaks.ContinuationUnbalances, Streaks.ContinuationUnbalancesExample | Streaks.UpdateRecorded, Streaks.UpdateRecordedKeepsBalanced |
| CoMentor.Infrastructure/Services/PomodoroService.cs:250-251 | `UpdateScheduleAsync` stores any requested `DayOfWeek` with no 0..6 check: `UpdateScheduleRequest.DayOfWeek` is a plain `int?` (CoMentor.Application/DTOs/PomodoroDtos.cs:102), while creation is guarded by the `[Range(0, 6)]` attribute on `CreateScheduleRequest` (line 84), which request validation enforces before the service runs. It then builds its reply with `DayNames[day]` (line 389) | updating an existing schedule with day 7: the row is saved with day 7, the reply throws an index error after the save, and the schedule disappears from every day of the weekly view | a day outside 0..6 is refused before saving, as request validation refuses it on creation | high (not executed) | Schedules.UpdateScheduleAsWritten, Schedules.UpdateAsWrittenStoresUnnamedDay | Schedules.UpdateSchedule, Schedules.UpdateKeepsDaysInRange |
