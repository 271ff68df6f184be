/**
 * The leaderboard service: reports computed from the users, sessions and
 * participants the store returns. The store reads themselves are taken as
 * given lists of records; what is modelled is the counting, filtering,
 * sorting and truncation done on them.
 */
module Leaderboard {
  import opened Wrappers
  import opened Seqs
  import opened GameStore

  /** A user with all their participant rows (the user's `sessions` relation). */
  datatype Player = Player(id: UserId, username: string, sessions: seq<Participant>)

  datatype PlayerStats = PlayerStats(id: UserId, username: string, wins: nat, totalGames: nat)

  predicate Won(p: Participant) { p.isWinner }

  predicate Lost(p: Participant) { !p.isWinner }

  function StatsWins(s: PlayerStats): int { s.wins }

  /** One player's record: wins are the winning participations, games are all of them. */
  function StatsOf(player: Player): (s: PlayerStats)
    ensures s.id == player.id && s.username == player.username
    ensures s.wins == |Filter(player.sessions, Won)| && s.totalGames == |player.sessions|
    ensures s.wins <= s.totalGames
  {
    PlayerStats(player.id, player.username, |Filter(player.sessions, Won)|, |player.sessions|)
  }

  /** The records of all players, in the order the store returned them. */
  function AllStats(players: seq<Player>): (r: seq<PlayerStats>)
    ensures |r| == |players|
    ensures forall i :: 0 <= i < |players| ==> r[i] == StatsOf(players[i])
  {
    seq(|players|, i requires 0 <= i < |players| => StatsOf(players[i]))
  }

  const DefaultTopPlayersLimit := 10

  /**
   * getTopPlayers: every player's record, most wins first, cut to `limit`
   * entries (10 when no limit is passed; a negative limit drops entries
   * from the end, as slice does).
   */
  function TopPlayers(players: seq<Player>, limit: Option<int>): (r: seq<PlayerStats>)
    ensures SortedDesc(r, StatsWins)
    ensures multiset(r) <= multiset(AllStats(players))
    ensures limit.None? ==> |r| == Min(DefaultTopPlayersLimit, |players|)
    ensures limit.Some? && limit.value >= 0 ==> |r| == Min(limit.value, |players|)
    ensures limit.Some? && limit.value < 0 ==> |r| == Max(|players| + limit.value, 0)
  {
    var sorted := SortDesc(AllStats(players), StatsWins);
    var r := SliceTo(sorted, if limit.None? then DefaultTopPlayersLimit else limit.value);
    PrefixOfSorted(sorted, StatsWins, |r|);
    r
  }

  /** Every top-player entry is one player's own record, so its wins never exceed its games. */
  lemma TopPlayersEntries(players: seq<Player>, limit: Option<int>)
    ensures forall e :: e in TopPlayers(players, limit) ==>
      e.wins <= e.totalGames && exists i :: 0 <= i < |players| && e == StatsOf(players[i])
  {
    var r := TopPlayers(players, limit);
    forall e | e in r
      ensures e.wins <= e.totalGames && exists i :: 0 <= i < |players| && e == StatsOf(players[i])
    {
      assert e in multiset(r);
      assert e in AllStats(players);
    }
  }

  /** Nobody left out of the top players has more wins than anybody in it. */
  lemma TopPlayersAreTop(players: seq<Player>, limit: Option<int>, i: nat)
    requires i < |players|
    requires StatsOf(players[i]) !in TopPlayers(players, limit)
    ensures forall e :: e in TopPlayers(players, limit) ==> e.wins >= StatsOf(players[i]).wins
  {
    var all := AllStats(players);
    var sorted := SortDesc(all, StatsWins);
    var r := TopPlayers(players, limit);
    var x := StatsOf(players[i]);
    assert r == sorted[..|r|];
    SortedPrefixDominates(sorted, StatsWins, |r|);
    assert x in multiset(sorted) - multiset(r) by {
      assert all[i] == x;
      assert x in multiset(all);
    }
  }

  /** The where clause of getSessionsByDate: completed, and started within the bounds that are given. */
  predicate InPeriod(s: Session, startDate: Option<int>, endDate: Option<int>) {
    && s.isCompleted
    && (startDate.Some? ==> s.startedAt >= startDate.value)
    && (endDate.Some? ==> s.startedAt <= endDate.value)
  }

  /** The `startedAt` part of the where clause: the `gte` and `lte` bounds it holds. */
  datatype StartedAtFilter = StartedAtFilter(gte: Option<int>, lte: Option<int>)

  /**
   * The `startedAt` clause as getSessionsByDate builds it: a start date sets
   * `{ gte }`; an end date then sets `{ ...startedAt, lte }`, which copies the
   * `gte` already there (spreading an absent clause copies nothing). None
   * when neither bound is given.
   */
  function WhereStartedAt(startDate: Option<int>, endDate: Option<int>): (w: Option<StartedAtFilter>)
    ensures w.None? <==> startDate.None? && endDate.None?
    ensures w.Some? ==> w.value.gte == startDate && w.value.lte == endDate
  {
    var afterStart := if startDate.Some? then Some(StartedAtFilter(startDate, None)) else None;
    if endDate.Some? then Some(StartedAtFilter(if afterStart.Some? then afterStart.value.gte else None, endDate))
    else afterStart
  }

  /** Whether `s` passes a `startedAt` clause; an absent clause lets every session through. */
  predicate MatchesStartedAt(w: Option<StartedAtFilter>, s: Session) {
    w.Some? ==>
      && (w.value.gte.Some? ==> s.startedAt >= w.value.gte.value)
      && (w.value.lte.Some? ==> s.startedAt <= w.value.lte.value)
  }

  /**
   * The where clause as built, `isCompleted: true` with the `startedAt`
   * clause, keeps exactly the sessions in the period: the end date does not
   * drop the start date.
   */
  lemma WhereClauseIsInPeriod(s: Session, startDate: Option<int>, endDate: Option<int>)
    ensures s.isCompleted && MatchesStartedAt(WhereStartedAt(startDate, endDate), s) <==> InPeriod(s, startDate, endDate)
  {
  }

  function Within(startDate: Option<int>, endDate: Option<int>): Session -> bool {
    (s: Session) => InPeriod(s, startDate, endDate)
  }

  function StartedAt(s: Session): int { s.startedAt }

  function EntryStartedAt(e: SessionWithParticipants): int { e.session.startedAt }

  /** The seated participants of session `s`. */
  function SeatedIn(ps: seq<Participant>, s: Session): (r: seq<Participant>)
    ensures forall p :: p in r <==> p in ps && p.sessionId == s.id && !p.isInQueue
  {
    Filter(ps, SeatedInSession(s.id))
  }

  /** The sessions of the entries, in order. */
  function SessionsOf(r: seq<SessionWithParticipants>): (ss: seq<Session>)
    ensures |ss| == |r| && forall i :: 0 <= i < |r| ==> ss[i] == r[i].session
  {
    seq(|r|, i requires 0 <= i < |r| => r[i].session)
  }

  /**
   * getSessionsByDate: the completed sessions started within the given
   * bounds, latest first, each with its seated participants only.
   */
  function SessionsByDate(ss: seq<Session>, ps: seq<Participant>, startDate: Option<int>, endDate: Option<int>)
    : (r: seq<SessionWithParticipants>)
    ensures SortedDesc(r, EntryStartedAt)
    ensures multiset(SessionsOf(r)) == multiset(Filter(ss, Within(startDate, endDate)))
    ensures forall e :: e in r ==> e.participants == SeatedIn(ps, e.session)
  {
    var sorted := SortDesc(Filter(ss, Within(startDate, endDate)), StartedAt);
    var r := seq(|sorted|, i requires 0 <= i < |sorted| => SessionWithParticipants(sorted[i], SeatedIn(ps, sorted[i])));
    assert SessionsOf(r) == sorted;
    assert forall i :: 0 <= i < |r| ==> EntryStartedAt(r[i]) == StartedAt(sorted[i]);
    r
  }

  /** Every session getSessionsByDate lists is a stored session that meets its where clause. */
  lemma SessionsByDateEntries(ss: seq<Session>, ps: seq<Participant>, startDate: Option<int>, endDate: Option<int>)
    ensures forall e :: e in SessionsByDate(ss, ps, startDate, endDate) ==>
      e.session in ss && InPeriod(e.session, startDate, endDate)
  {
    var r := SessionsByDate(ss, ps, startDate, endDate);
    forall e | e in r
      ensures e.session in ss && InPeriod(e.session, startDate, endDate)
    {
      var i :| 0 <= i < |r| && r[i] == e;
      assert SessionsOf(r)[i] == e.session;
      assert e.session in multiset(SessionsOf(r));
      assert e.session in Filter(ss, Within(startDate, endDate));
    }
  }

  // getPlayersByPeriod

  /** A winning participant's user, as the query includes it. */
  datatype UserRef = UserRef(id: UserId, username: string)

  /** One entry of the win tally. */
  datatype Tally = Tally(username: string, wins: nat)

  function TallyWins(t: Tally): int { t.wins }

  /** The winners of the fetched sessions, session after session. */
  function Flatten(sessions: seq<seq<UserRef>>): seq<UserRef> {
    if sessions == [] then [] else Flatten(sessions[..|sessions| - 1]) + sessions[|sessions| - 1]
  }

  /** How many of the winning participations `rs` belong to user `uid`. */
  function Occurrences(rs: seq<UserRef>, uid: UserId): nat {
    if rs == [] then 0
    else Occurrences(rs[..|rs| - 1], uid) + (if rs[|rs| - 1].id == uid then 1 else 0)
  }

  /** The username that came with user `uid`'s first winning participation. */
  function FirstUsername(rs: seq<UserRef>, uid: UserId): string
    requires Occurrences(rs, uid) > 0
  {
    if Occurrences(rs[..|rs| - 1], uid) > 0 then FirstUsername(rs[..|rs| - 1], uid) else rs[|rs| - 1].username
  }

  /** The ids of the users who won in `rs`, each once, in the order of their first win. */
  function WinOrder(rs: seq<UserRef>): seq<UserId> {
    if rs == [] then []
    else
      var prev := WinOrder(rs[..|rs| - 1]);
      if rs[|rs| - 1].id in prev then prev else prev + [rs[|rs| - 1].id]
  }

  ghost predicate Distinct<T>(s: seq<T>) {
    forall i, j :: 0 <= i < j < |s| ==> s[i] != s[j]
  }

  /**
   * The tally of the winning participations `done`: one key per user who
   * won at least once, in the order they first appeared, with the number
   * of their wins and the username of their first win.
   */
  ghost predicate Tallied(done: seq<UserRef>, order: seq<UserId>, counts: map<UserId, Tally>) {
    && order == WinOrder(done)
    && Distinct(order)
    && (forall uid :: uid in order <==> uid in counts)
    && (forall uid :: uid in counts <==> Occurrences(done, uid) > 0)
    && (forall uid :: uid in counts ==> counts[uid] == Tally(FirstUsername(done, uid), Occurrences(done, uid)))
  }

  /** Counting one more winning participation. */
  lemma OccurrencesAppend(rs: seq<UserRef>, u: UserRef, uid: UserId)
    ensures Occurrences(rs + [u], uid) == Occurrences(rs, uid) + (if u.id == uid then 1 else 0)
    ensures Occurrences(rs + [u], uid) > 0 && Occurrences(rs, uid) > 0 ==> FirstUsername(rs + [u], uid) == FirstUsername(rs, uid)
    ensures Occurrences(rs, uid) == 0 && u.id == uid ==> FirstUsername(rs + [u], uid) == u.username
  {
    assert (rs + [u])[..|rs|] == rs;
  }

  /** Counting one more winning participation keeps the tally complete. */
  lemma TallyStep(done: seq<UserRef>, u: UserRef, order: seq<UserId>, counts: map<UserId, Tally>)
    requires Tallied(done, order, counts)
    ensures u.id in counts ==>
      Tallied(done + [u], order, counts[u.id := counts[u.id].(wins := counts[u.id].wins + 1)])
    ensures u.id !in counts ==>
      Tallied(done + [u], order + [u.id], counts[u.id := Tally(u.username, 1)])
  {
    forall uid {
      OccurrencesAppend(done, u, uid);
    }
    assert (done + [u])[..|done|] == done;
  }

  /** The flattened winners of one more session. */
  lemma FlattenNext(sessions: seq<seq<UserRef>>, i: nat)
    requires i < |sessions|
    ensures Flatten(sessions[..i + 1]) == Flatten(sessions[..i]) + sessions[i]
  {
    assert sessions[..i + 1][..i] == sessions[..i];
  }

  /**
   * The nested loops of getPlayersByPeriod that build the win tally, a map
   * from user id to username and win count whose keys keep their insertion
   * order (the order Array.from(map.values()) lists them in).
   */
  method TallyWinners(sessions: seq<seq<UserRef>>) returns (order: seq<UserId>, counts: map<UserId, Tally>)
    ensures Tallied(Flatten(sessions), order, counts)
  {
    order, counts := [], map[];
    var i := 0;
    assert sessions[..0] == [];
    while i < |sessions|
      invariant 0 <= i <= |sessions|
      invariant Tallied(Flatten(sessions[..i]), order, counts)
    {
      var winners := sessions[i];
      var j := 0;
      assert Flatten(sessions[..i]) + winners[..0] == Flatten(sessions[..i]);
      while j < |winners|
        invariant 0 <= j <= |winners|
        invariant Tallied(Flatten(sessions[..i]) + winners[..j], order, counts)
      {
        var u := winners[j];
        ghost var done := Flatten(sessions[..i]) + winners[..j];
        assert Flatten(sessions[..i]) + winners[..j + 1] == done + [u];
        TallyStep(done, u, order, counts);
        if u.id in counts {
          counts := counts[u.id := counts[u.id].(wins := counts[u.id].wins + 1)];
        } else {
          counts := counts[u.id := Tally(u.username, 1)];
          order := order + [u.id];
        }
        j := j + 1;
      }
      FlattenNext(sessions, i);
      assert winners[..j] == winners;
      i := i + 1;
    }
    assert sessions[..i] == sessions;
  }

  /** The ids of the users with at least one winning participation. */
  ghost function WinnerIds(sessions: seq<seq<UserRef>>): set<UserId> {
    set u | u in Flatten(sessions) :: u.id
  }

  /** A user has a win exactly when one of the winning participations is theirs. */
  lemma {:induction false} OccurrencesPositive(rs: seq<UserRef>, uid: UserId)
    ensures Occurrences(rs, uid) > 0 <==> exists u :: u in rs && u.id == uid
  {
    if rs != [] {
      var init := rs[..|rs| - 1];
      OccurrencesPositive(init, uid);
      assert rs == init + [rs[|rs| - 1]];
    }
  }

  /** A sequence without repetitions has as many distinct elements as it is long. */
  lemma {:induction false} DistinctCount(s: seq<UserId>)
    requires Distinct(s)
    ensures |set x | x in s| == |s|
  {
    if s != [] {
      DistinctCount(s[1..]);
      assert (set x | x in s) == {s[0]} + (set x | x in s[1..]);
    }
  }

  /** A complete tally has one entry per winner. */
  lemma TallySize(sessions: seq<seq<UserRef>>, order: seq<UserId>, counts: map<UserId, Tally>)
    requires Tallied(Flatten(sessions), order, counts)
    ensures |order| == |WinnerIds(sessions)|
  {
    forall uid ensures uid in order <==> uid in WinnerIds(sessions) {
      OccurrencesPositive(Flatten(sessions), uid);
    }
    assert (set x | x in order) == WinnerIds(sessions);
    DistinctCount(order);
  }

  const PeriodTopSize := 10

  /** `t` is the tally entry of some user who won at least once in `done`. */
  ghost predicate IsWinnerTally(done: seq<UserRef>, t: Tally) {
    exists uid :: Occurrences(done, uid) > 0 && t == Tally(FirstUsername(done, uid), Occurrences(done, uid))
  }

  /** The tally entries in key insertion order: Array.from(map.values()). */
  function TallyValues(order: seq<UserId>, counts: map<UserId, Tally>): (r: seq<Tally>)
    requires forall uid :: uid in order ==> uid in counts
    ensures |r| == |order| && forall k :: 0 <= k < |order| ==> r[k] == counts[order[k]]
  {
    seq(|order|, k requires 0 <= k < |order| => counts[order[k]])
  }

  /** Every value of a complete tally is some winner's entry, with at least one win. */
  lemma TallyValuesAreWinners(done: seq<UserRef>, order: seq<UserId>, counts: map<UserId, Tally>)
    requires Tallied(done, order, counts)
    ensures forall t :: t in TallyValues(order, counts) ==> t.wins >= 1 && IsWinnerTally(done, t)
  {
    forall t | t in TallyValues(order, counts) ensures t.wins >= 1 && IsWinnerTally(done, t) {
      var k :| 0 <= k < |order| && TallyValues(order, counts)[k] == t;
      assert order[k] in counts;
    }
  }

  /**
   * The ranking step: most wins first, cut to the first 10. No entry left
   * out has more wins than an entry kept.
   */
  function RankTallies(tallies: seq<Tally>): (r: seq<Tally>)
    ensures |r| == Min(PeriodTopSize, |tallies|)
    ensures SortedDesc(r, TallyWins)
    ensures multiset(r) <= multiset(tallies)
    ensures forall t, e :: t in multiset(tallies) - multiset(r) && e in r ==> e.wins >= t.wins
  {
    var sorted := SortDesc(tallies, TallyWins);
    var n := Min(PeriodTopSize, |tallies|);
    PrefixOfSorted(sorted, TallyWins, n);
    SortedPrefixDominates(sorted, TallyWins, n);
    assert SliceTo(sorted, PeriodTopSize) == sorted[..n];
    sorted[..n]
  }

  /**
   * getPlayersByPeriod, from the fetched sessions' winners on: the tally,
   * most wins first, cut to 10 entries. Every entry is one winner's
   * username and win count; users who never won are absent. `order` and
   * `counts` are the complete tally the entries are taken from, and no
   * winner left out has more wins than a winner kept.
   */
  method PlayersByPeriod(sessions: seq<seq<UserRef>>) returns (top: seq<Tally>, ghost order: seq<UserId>, ghost counts: map<UserId, Tally>)
    ensures |top| == Min(PeriodTopSize, |WinnerIds(sessions)|)
    ensures SortedDesc(top, TallyWins)
    ensures forall t :: t in top ==> t.wins >= 1 && IsWinnerTally(Flatten(sessions), t)
    ensures Tallied(Flatten(sessions), order, counts)
    ensures multiset(top) <= multiset(TallyValues(order, counts))
    ensures forall t, e :: t in multiset(TallyValues(order, counts)) - multiset(top) && e in top ==> e.wins >= t.wins
  {
    var winners, tally := TallyWinners(sessions);
    order, counts := winners, tally;
    var tallies := TallyValues(winners, tally);
    top := RankTallies(tallies);
    TallySize(sessions, order, counts);
    TallyValuesAreWinners(Flatten(sessions), order, counts);
    forall t | t in top ensures t in tallies {
      assert t in multiset(top);
    }
  }

  // getUserStats

  datatype UserStats = UserStats(totalWins: nat, totalLosses: nat, totalGames: nat, winRate: nat)

  datatype LeaderboardError = UserNotFound

  /**
   * The win rate as a whole percentage, rounded half up on exact rationals,
   * and 0 when there are no games.
   */
  function WinRate(wins: nat, games: nat): (rate: nat)
    requires wins <= games
    ensures games == 0 ==> rate == 0
    ensures rate <= 100
    ensures games > 0 ==> 2 * games * rate <= 200 * wins + games < 2 * games * (rate + 1)
  {
    if games == 0 then 0
    else
      var rate := (200 * wins + games) / (2 * games);
      assert 200 * wins + games < 2 * games * 101;
      rate
  }

  /**
   * getUserStats: unknown users are an error; otherwise wins are the winning
   * participations, losses all the others, and games all of them.
   */
  function UserStatsOf(user: Option<Player>): (r: Result<UserStats, LeaderboardError>)
    ensures user.None? <==> r == Err(UserNotFound)
    ensures user.Some? ==>
      && r.Ok?
      && r.value.totalGames == |user.value.sessions|
      && r.value.totalWins == |Filter(user.value.sessions, Won)|
      && r.value.totalLosses == |Filter(user.value.sessions, Lost)|
      && r.value.totalWins + r.value.totalLosses == r.value.totalGames
      && r.value.winRate == WinRate(r.value.totalWins, r.value.totalGames)
      && r.value.winRate <= 100
      && (r.value.totalGames == 0 ==> r.value.winRate == 0)
  {
    match user
    case None => Err(UserNotFound)
    case Some(u) =>
      var totalGames := |u.sessions|;
      var wins := |Filter(u.sessions, Won)|;
      FilterSplit(u.sessions, Won, Lost);
      var losses := totalGames - wins;
      Ok(UserStats(wins, losses, totalGames, WinRate(wins, totalGames)))
  }
}
