/**
 * The game service: timed "pick a number from 1 to 9" rounds over the
 * session and participant tables. Each operation is a method of one object
 * that holds both tables and changes them step by step, one store call at a
 * time, as the service does. The clock (`now`, in milliseconds), the
 * configuration and the random draw are parameters.
 */
module Game {
  import opened Wrappers
  import opened Seqs
  import opened GameStore

  const DefaultSessionDuration := 20
  const DefaultMaxPlayers := 10

  /**
   * `parseInt(setting) || fallback`: a missing or unparsable setting (None)
   * and a zero setting both give the fallback; any other value, negative
   * ones included, is kept.
   */
  function SettingOr(setting: Option<int>, fallback: int): (v: int)
    ensures setting.Some? && setting.value != 0 ==> v == setting.value
    ensures setting.None? || setting.value == 0 ==> v == fallback
  {
    if setting.Some? && setting.value != 0 then setting.value else fallback
  }

  /** The two environment settings, read afresh by every operation. */
  datatype Config = Config(sessionDuration: Option<int>, maxPlayersPerSession: Option<int>)

  /** The service's exceptions, and the store's "record to update/delete not found". */
  datatype GameError = SessionEnded | NoActiveSession | InvalidNumber | ForbiddenWhileQueued | RecordNotFound

  datatype Status = Status(hasActiveSession: bool, timeLeft: int, participantCount: nat, queueCount: nat, sessionId: Option<Id>)

  class GameService {
    var sessions: seq<Session>
    var participants: seq<Participant>
    /** The next fresh row id. */
    var nextId: nat

    ghost predicate Valid()
      reads this
    {
      StoreInvariant(sessions, participants, nextId)
    }

    constructor ()
      ensures Valid() && sessions == [] && participants == []
    {
      sessions := [];
      participants := [];
      nextId := 0;
    }

    /**
     * getCurrentSession: the first open session with all its participants,
     * or none. When at most one session is open it is that one.
     */
    function CurrentSession(): (r: Option<SessionWithParticipants>)
      reads this
      ensures r.Some? ==> r.value.session in sessions && IsOpen(r.value.session)
      ensures r.Some? ==> exists i :: 0 <= i < |sessions| && sessions[i] == r.value.session && forall j :: 0 <= j < i ==> !IsOpen(sessions[j])
      ensures r.Some? ==> forall p :: p in r.value.participants <==> p in participants && p.sessionId == r.value.session.id
      ensures r.Some? ==> r.value.participants == ParticipantsOf(participants, r.value.session.id)
      ensures r.Some? && AtMostOneOpen(sessions) ==> forall s :: s in sessions && IsOpen(s) ==> s == r.value.session
      ensures r.None? <==> forall s :: s in sessions ==> !IsOpen(s)
    {
      match OpenSessionIndex(sessions)
      case None => None
      case Some(i) => Some(SessionWithParticipants(sessions[i], ParticipantsOf(participants, sessions[i].id)))
    }

    /**
     * createNewSession: stores a new open session started now by
     * `startedById`, ending after the configured number of seconds. It does
     * not look for an open session first.
     */
    method CreateNewSession(startedById: Option<UserId>, config: Config, now: int) returns (s: Session)
      requires Valid()
      modifies this
      ensures Valid()
      ensures sessions == old(sessions) + [s] && participants == old(participants)
      ensures forall t :: t in old(sessions) ==> t.id != s.id
      ensures IsOpen(s) && s.winningNumber == None && s.startedById == startedById
      ensures s.startedAt == now
      ensures s.endsAt == now + SettingOr(config.sessionDuration, DefaultSessionDuration) * 1000
    {
      var duration := SettingOr(config.sessionDuration, DefaultSessionDuration);
      s := Session(nextId, now, now + duration * 1000, true, false, None, startedById);
      forall i | 0 <= i < |participants|
        ensures SessionIndex(sessions + [s], participants[i].sessionId) == SessionIndex(sessions, participants[i].sessionId)
      {
        SessionIndexAppend(sessions, s, participants[i].sessionId);
      }
      sessions := sessions + [s];
      nextId := nextId + 1;
    }

    /**
     * addParticipantToSession (isInQueue false) and addParticipantToQueue
     * (isInQueue true): stores a new participant of `sessionId` joined now,
     * with no number and not a winner.
     */
    method AddParticipant(userId: UserId, sessionId: Id, isInQueue: bool, now: int) returns (p: Participant)
      requires Valid()
      requires SessionIndex(sessions, sessionId).Some?
      modifies this
      ensures Valid()
      ensures participants == old(participants) + [p] && sessions == old(sessions)
      ensures forall q :: q in old(participants) ==> q.id != p.id
      ensures p == Participant(p.id, sessionId, userId, now, isInQueue, None, false)
    {
      p := Participant(nextId, sessionId, userId, now, isInQueue, None, false);
      participants := participants + [p];
      nextId := nextId + 1;
    }

    /**
     * joinSession. With no open session, one is created, started by the
     * caller, and the caller is seated in it. An open session whose deadline
     * has passed rejects the join. Otherwise the caller is added, queued
     * exactly when the seated participants already number at least the
     * capacity. The same user may join any number of times.
     */
    method JoinSession(userId: UserId, config: Config, now: int) returns (r: Result<Participant, GameError>)
      requires Valid()
      modifies this
      ensures Valid()
      ensures old(AtMostOneOpen(sessions)) ==> AtMostOneOpen(sessions)
      ensures r.Ok? ==> forall q :: q in old(participants) ==> q.id != r.value.id
      ensures old(CurrentSession()).None? ==>
        && r.Ok?
        && |sessions| == |old(sessions)| + 1
        && sessions[..|old(sessions)|] == old(sessions)
        && var s := sessions[|old(sessions)|];
        && IsOpen(s) && s.winningNumber == None && s.startedById == Some(userId) && s.startedAt == now
        && s.endsAt == now + SettingOr(config.sessionDuration, DefaultSessionDuration) * 1000
        && (forall t :: t in old(sessions) ==> t.id != s.id)
        && participants == old(participants) + [r.value]
        && r.value == Participant(r.value.id, s.id, userId, now, false, None, false)
      ensures old(CurrentSession()).Some? && now > old(CurrentSession()).value.session.endsAt ==>
        r == Err(SessionEnded) && sessions == old(sessions) && participants == old(participants)
      ensures old(CurrentSession()).Some? && now <= old(CurrentSession()).value.session.endsAt ==>
        var cur := old(CurrentSession()).value.session;
        var full := ActiveCount(old(participants), cur.id) >= SettingOr(config.maxPlayersPerSession, DefaultMaxPlayers);
        && r.Ok?
        && sessions == old(sessions)
        && participants == old(participants) + [r.value]
        && r.value == Participant(r.value.id, cur.id, userId, now, full, None, false)
    {
      var maxPlayers := SettingOr(config.maxPlayersPerSession, DefaultMaxPlayers);
      var current := CurrentSession();
      if current.None? {
        var s := CreateNewSession(Some(userId), config, now);
        assert sessions[|sessions| - 1] == s;
        var p := AddParticipant(userId, s.id, false, now);
        assert sessions[..|old(sessions)|] == old(sessions);
        return Ok(p);
      }
      var cur := current.value;
      if now > cur.session.endsAt {
        return Err(SessionEnded);
      }
      var i :| 0 <= i < |sessions| && sessions[i] == cur.session;
      SessionIndexOfUnique(sessions, i);
      var activeParticipants := Filter(cur.participants, IsSeated);
      if |activeParticipants| >= maxPlayers {
        var p := AddParticipant(userId, cur.session.id, true, now);
        return Ok(p);
      }
      var p := AddParticipant(userId, cur.session.id, false, now);
      return Ok(p);
    }

    /**
     * leaveSession: the outcome and the participant table afterwards are the
     * ones `Leave` gives for the tables before.
     */
    method LeaveSession(userId: UserId) returns (r: Result<(), GameError>)
      requires Valid()
      modifies this
      ensures Valid()
      ensures sessions == old(sessions)
      ensures (r, participants) == Leave(old(sessions), old(participants), userId)
    {
      var found := OpenParticipantIndex(sessions, participants, userId);
      if found.None? {
        return Err(NoActiveSession);
      }
      var k := found.value;
      var leaver := participants[k];
      var next := EarliestQueued(participants, leaver.sessionId);
      DeleteParticipantAt(participants, k);
      var deleted := DeleteParticipantRow(leaver.id);
      if next.Some? {
        var promoted := SeatParticipant(next.value.id);
        if !promoted {
          return Err(RecordNotFound);
        }
      }
      return Ok(());
    }

    /** delete on the participant table by id; a missing row is an error that changes nothing. */
    method DeleteParticipantRow(id: Id) returns (ok: bool)
      requires Valid()
      modifies this`participants
      ensures Valid()
      ensures ok == DeleteParticipant(old(participants), id).Some?
      ensures participants == if ok then DeleteParticipant(old(participants), id).value else old(participants)
    {
      var found := FirstIndex(participants, (p: Participant) => p.id == id);
      if found.None? {
        return false;
      }
      var k := found.value;
      var rest := participants[..k] + participants[k + 1..];
      assert DeleteParticipant(participants, id) == Some(rest) by {
        DeleteParticipantAt(participants, k);
      }
      assert StoreInvariant(sessions, rest, nextId) by {
        RemoveKeepsInvariant(sessions, participants, k, nextId);
      }
      participants := rest;
      return true;
    }

    /** update of the participant with id `id` to isInQueue false; a missing row is an error that changes nothing. */
    method SeatParticipant(id: Id) returns (ok: bool)
      requires Valid()
      modifies this`participants
      ensures Valid()
      ensures ok == UpdateParticipant(old(participants), id, Seat).Some?
      ensures participants == if ok then UpdateParticipant(old(participants), id, Seat).value else old(participants)
    {
      var updated := UpdateParticipant(participants, id, Seat);
      if updated.None? {
        return false;
      }
      var j :| 0 <= j < |participants| && participants[j].id == id;
      assert updated.value == participants[j := Seat(participants[j])] by {
        UpdateParticipantAt(participants, j, Seat);
      }
      assert StoreInvariant(sessions, updated.value, nextId) by {
        ReplaceKeepsInvariant(sessions, participants, j, Seat(participants[j]), nextId);
      }
      participants := updated.value;
      return true;
    }

    /**
     * chooseNumber. A number outside 1..9 is rejected before any lookup.
     * The caller's first participant in an open session must exist and hold
     * a seat; its chosen number is overwritten and nothing else changes.
     */
    method ChooseNumber(userId: UserId, number: int) returns (r: Result<Participant, GameError>)
      requires Valid()
      modifies this
      ensures Valid()
      ensures sessions == old(sessions)
      ensures !(1 <= number <= 9) ==> r == Err(InvalidNumber) && participants == old(participants)
      ensures 1 <= number <= 9 && old(OpenParticipantIndex(sessions, participants, userId)).None? ==>
        r == Err(NoActiveSession) && participants == old(participants)
      ensures 1 <= number <= 9 && old(OpenParticipantIndex(sessions, participants, userId)).Some? ==>
        var k := old(OpenParticipantIndex(sessions, participants, userId)).value;
        && (old(participants)[k].isInQueue ==> r == Err(ForbiddenWhileQueued) && participants == old(participants))
        && (!old(participants)[k].isInQueue ==>
              && r == Ok(old(participants)[k].(chosenNumber := Some(number)))
              && participants == old(participants)[k := r.value])
    {
      if number < 1 || number > 9 {
        return Err(InvalidNumber);
      }
      var found := OpenParticipantIndex(sessions, participants, userId);
      if found.None? {
        return Err(NoActiveSession);
      }
      var k := found.value;
      var participant := participants[k];
      if participant.isInQueue {
        return Err(ForbiddenWhileQueued);
      }
      var choose := (p: Participant) => p.(chosenNumber := Some(number));
      UpdateParticipantAt(participants, k, choose);
      ReplaceKeepsInvariant(sessions, participants, k, choose(participant), nextId);
      var updated := UpdateParticipant(participants, participant.id, choose);
      participants := updated.value;
      return Ok(choose(participant));
    }

    /**
     * completeSession with the drawn number `drawn`: the result and the new
     * tables are the ones `Completion` gives; completing never opens a
     * second session, and completing an open session keeps every completed
     * session's winners matching its draw.
     */
    method CompleteSession(sessionId: Id, drawn: int) returns (r: Result<Session, GameError>)
      requires Valid()
      requires 1 <= drawn <= 9
      modifies this
      ensures Valid()
      ensures (r, sessions, participants) == Completion(old(sessions), old(participants), sessionId, drawn)
      ensures old(AtMostOneOpen(sessions)) ==> AtMostOneOpen(sessions)
      ensures old(WinnersMatchDraw(sessions, participants)) && old(SessionIsOpen(sessions, sessionId)) ==>
        WinnersMatchDraw(sessions, participants)
    {
      var found := SessionIndex(sessions, sessionId);
      if found.None? {
        return Err(RecordNotFound);
      }
      var i := found.value;
      var completed := Complete(sessions[i], drawn);
      assert UpdateSession(sessions, sessionId, CompleteWith(drawn)) == Some(sessions[i := completed]) by {
        UpdateSessionAt(sessions, i, CompleteWith(drawn));
      }
      var updated := UpdateSession(sessions, sessionId, CompleteWith(drawn)).value;
      var marked := MarkWinners(participants, sessionId, drawn);
      assert StoreInvariant(updated, marked, nextId) by {
        CompleteKeepsInvariant(sessions, participants, i, drawn, nextId);
      }
      assert AtMostOneOpen(sessions) ==> AtMostOneOpen(updated) by {
        if AtMostOneOpen(sessions) {
          CompleteKeepsAtMostOneOpen(sessions, i, drawn);
        }
      }
      assert WinnersMatchDraw(sessions, participants) && SessionIsOpen(sessions, sessionId) ==> WinnersMatchDraw(updated, marked) by {
        if WinnersMatchDraw(sessions, participants) && SessionIsOpen(sessions, sessionId) {
          CompleteOpenKeepsWinnersMatchDraw(sessions, participants, i, drawn, nextId);
        }
      }
      sessions, participants := updated, marked;
      return Ok(completed);
    }

    /**
     * getSessionStatus: without an open session, all zeroes. Otherwise the
     * whole seconds left before the deadline (0 once it has passed) and the
     * seated and queued counts, which together are all its participants.
     */
    function SessionStatus(now: int): (st: Status)
      reads this
      ensures CurrentSession().None? ==> st == Status(false, 0, 0, 0, None)
      ensures CurrentSession().Some? ==>
        var cur := CurrentSession().value;
        && st.hasActiveSession
        && st.sessionId == Some(cur.session.id)
        && st.timeLeft >= 0
        && (cur.session.endsAt - now < 1000 ==> st.timeLeft == 0)
        && (cur.session.endsAt - now >= 0 ==> st.timeLeft * 1000 <= cur.session.endsAt - now < (st.timeLeft + 1) * 1000)
        && st.participantCount == ActiveCount(participants, cur.session.id)
        && st.queueCount == QueueCount(participants, cur.session.id)
        && st.participantCount + st.queueCount == |cur.participants|
    {
      match CurrentSession()
      case None => Status(false, 0, 0, 0, None)
      case Some(cur) =>
        ActivePlusQueued(participants, cur.session.id);
        var timeLeft := Max(0, (cur.session.endsAt - now) / 1000);
        Status(true, timeLeft, |Filter(cur.participants, IsSeated)|, |Filter(cur.participants, IsQueued)|, Some(cur.session.id))
    }
  }

  /**
   * completeSession on the tables `ss` and `ps`, whose session ids are
   * unique, with the drawn number `drawn`. An unknown session is an error
   * and changes nothing. Otherwise that session alone gets the winning
   * number and is closed, and is returned; then every seated participant of
   * it who chose `drawn` is marked a winner, and nothing else changes. A
   * session that is already completed is completed again.
   */
  function Completion(ss: seq<Session>, ps: seq<Participant>, sessionId: Id, drawn: int)
    : (out: (Result<Session, GameError>, seq<Session>, seq<Participant>))
    requires forall a, b :: 0 <= a < b < |ss| ==> ss[a].id != ss[b].id
    ensures SessionIndex(ss, sessionId).None? ==> out == (Err(RecordNotFound), ss, ps)
    ensures SessionIndex(ss, sessionId).Some? ==>
      var i := SessionIndex(ss, sessionId).value;
      && out.0 == Ok(Complete(ss[i], drawn))
      && out.1 == ss[i := Complete(ss[i], drawn)]
      && out.2 == MarkWinners(ps, sessionId, drawn)
  {
    match SessionIndex(ss, sessionId)
    case None => (Err(RecordNotFound), ss, ps)
    case Some(i) =>
      UpdateSessionAt(ss, i, CompleteWith(drawn));
      (Ok(Complete(ss[i], drawn)), UpdateSession(ss, sessionId, CompleteWith(drawn)).value, MarkWinners(ps, sessionId, drawn))
  }

  /**
   * leaveSession on the tables `ss` and `ps`, whose participant ids are
   * unique. The caller's first participant in an open session is deleted.
   * The earliest queued participant of that session, read before the
   * delete, is then seated, whether the leaver held a seat or not. When
   * that earliest queued participant is the leaver itself, the update finds
   * no row and fails after the delete has happened.
   */
  function Leave(ss: seq<Session>, ps: seq<Participant>, userId: UserId): (out: (Result<(), GameError>, seq<Participant>))
    requires forall i, j :: 0 <= i < j < |ps| ==> ps[i].id != ps[j].id
    ensures OpenParticipantIndex(ss, ps, userId).None? ==> out == (Err(NoActiveSession), ps)
    ensures OpenParticipantIndex(ss, ps, userId).Some? ==>
      var k := OpenParticipantIndex(ss, ps, userId).value;
      var leaver := ps[k];
      var rest := ps[..k] + ps[k + 1..];
      var next := EarliestQueued(ps, leaver.sessionId);
      && (next.None? ==> out == (Ok(()), rest))
      && (next.Some? && next.value.id == leaver.id ==> out == (Err(RecordNotFound), rest))
      && (next.Some? && next.value.id != leaver.id ==>
            && out.0 == Ok(())
            && |out.1| == |rest|
            && forall j :: 0 <= j < |rest| ==>
                 out.1[j] == if rest[j].id == next.value.id then Seat(rest[j]) else rest[j])
  {
    match OpenParticipantIndex(ss, ps, userId)
    case None => (Err(NoActiveSession), ps)
    case Some(k) =>
      var next := EarliestQueued(ps, ps[k].sessionId);
      DeleteParticipantAt(ps, k);
      var rest := DeleteParticipant(ps, ps[k].id).value;
      if next.None? then (Ok(()), rest)
      else
        UpdateAfterDelete(ps, k, next.value, Seat);
        match UpdateParticipant(rest, next.value.id, Seat)
        case None => (Err(RecordNotFound), rest)
        case Some(after) => (Ok(()), after)
  }

  /**
   * A valid store in which leaveSession takes its RecordNotFound path: the
   * only queued participant leaves, so the earliest queued participant read
   * before the delete is the leaver itself.
   */
  lemma SelfPromotionReachable()
    ensures var ss := [Session(0, 0, 20000, true, false, None, Some("A"))];
      var ps := [Participant(1, 0, "A", 0, false, None, false), Participant(2, 0, "B", 1, true, None, false)];
      && StoreInvariant(ss, ps, 3)
      && OpenParticipantIndex(ss, ps, "B") == Some(1)
      && EarliestQueued(ps, 0) == Some(ps[1])
  {
    var ss := [Session(0, 0, 20000, true, false, None, Some("A"))];
    var ps := [Participant(1, 0, "A", 0, false, None, false), Participant(2, 0, "B", 1, true, None, false)];
    assert SessionIsOpen(ss, 0) by {
      assert SessionIndex(ss, 0) == Some(0);
    }
    assert StoreInvariant(ss, ps, 3);
    assert OpenParticipantIndex(ss, ps, "B") == Some(1);
    assert EarliestQueued(ps, 0) == Some(ps[1]) by {
      assert ps[1..] == [ps[1]] && ps[1..][1..] == [];
    }
  }

  /** On that store, B's leave deletes B's row and then fails with RecordNotFound. */
  lemma SelfPromotionFails()
    ensures var ss := [Session(0, 0, 20000, true, false, None, Some("A"))];
      var ps := [Participant(1, 0, "A", 0, false, None, false), Participant(2, 0, "B", 1, true, None, false)];
      Leave(ss, ps, "B") == (Err(RecordNotFound), [ps[0]])
  {
    SelfPromotionReachable();
    var ps := [Participant(1, 0, "A", 0, false, None, false), Participant(2, 0, "B", 1, true, None, false)];
    assert ps[..1] + ps[2..] == [ps[0]];
  }

  /** The store of QueuedLeaverPromotesAnother: user A seated, then B and C queued, in one open session. */
  lemma QueuedLeaverStore(userA: UserId, userB: UserId, userC: UserId)
    requires userC != userA && userC != userB
    ensures var ss := [Session(0, 0, 20000, true, false, None, Some(userA))];
      var ps := [Participant(1, 0, userA, 0, false, None, false), Participant(2, 0, userB, 1, true, None, false),
                 Participant(3, 0, userC, 2, true, None, false)];
      && StoreInvariant(ss, ps, 4)
      && OpenParticipantIndex(ss, ps, userC) == Some(2)
      && EarliestQueued(ps, 0) == Some(ps[1])
  {
    var ss := [Session(0, 0, 20000, true, false, None, Some(userA))];
    var ps := [Participant(1, 0, userA, 0, false, None, false), Participant(2, 0, userB, 1, true, None, false),
               Participant(3, 0, userC, 2, true, None, false)];
    assert SessionIsOpen(ss, 0) by {
      assert SessionIndex(ss, 0) == Some(0);
    }
    assert StoreInvariant(ss, ps, 4);
    assert EarliestQueued(ps, 0) == Some(ps[1]) by {
      assert ps[1..] == [ps[1], ps[2]] && ps[1..][1..] == [ps[2]] && ps[1..][1..][1..] == [];
    }
  }

  /**
   * With A seated and B and C queued, C leaves: C's row is deleted and B is
   * seated, although C held no seat to give up.
   */
  lemma QueuedLeaverPromotesAnother(userA: UserId, userB: UserId, userC: UserId)
    requires userC != userA && userC != userB
    ensures var ss := [Session(0, 0, 20000, true, false, None, Some(userA))];
      var a := Participant(1, 0, userA, 0, false, None, false);
      var b := Participant(2, 0, userB, 1, true, None, false);
      var c := Participant(3, 0, userC, 2, true, None, false);
      && StoreInvariant(ss, [a, b, c], 4)
      && Leave(ss, [a, b, c], userC) == (Ok(()), [a, Seat(b)])
  {
    var ss := [Session(0, 0, 20000, true, false, None, Some(userA))];
    var a := Participant(1, 0, userA, 0, false, None, false);
    var b := Participant(2, 0, userB, 1, true, None, false);
    var c := Participant(3, 0, userC, 2, true, None, false);
    var ps := [a, b, c];
    QueuedLeaverStore(userA, userB, userC);
    var rest := ps[..2] + ps[3..];
    assert rest == [a, b];
    var out := Leave(ss, ps, userC);
    assert out.0 == Ok(()) && |out.1| == 2;
    assert out.1[0] == a by { assert rest[0].id != b.id; }
    assert out.1[1] == Seat(b);
    assert out.1 == [a, Seat(b)];
  }

  /**
   * On the store of QueuedLeaverPromotesAnother, with one seat per session
   * and that seat taken, C's leave leaves two participants seated: one more
   * than the seats.
   */
  lemma QueuedLeaverOverfills(userA: UserId, userB: UserId, userC: UserId)
    requires userC != userA && userC != userB
    ensures var ss := [Session(0, 0, 20000, true, false, None, Some(userA))];
      var ps := [Participant(1, 0, userA, 0, false, None, false), Participant(2, 0, userB, 1, true, None, false),
                 Participant(3, 0, userC, 2, true, None, false)];
      && StoreInvariant(ss, ps, 4)
      && ActiveCount(ps, 0) == 1
      && ActiveCount(Leave(ss, ps, userC).1, 0) == 2
  {
    var ss := [Session(0, 0, 20000, true, false, None, Some(userA))];
    var a := Participant(1, 0, userA, 0, false, None, false);
    var b := Participant(2, 0, userB, 1, true, None, false);
    var c := Participant(3, 0, userC, 2, true, None, false);
    QueuedLeaverPromotesAnother(userA, userB, userC);
    OneSeatTaken(a, b, c, 0);
    TwoSeatsTaken(a, b, 0);
  }

  /**
   * Completing the same session twice with different draws: after the
   * first, the winners match the draw; after the second, the stored draw
   * is the new one while the first draw's winner keeps its flag.
   */
  lemma SecondCompletionBreaksWinnersMatchDraw()
    ensures var s := Session(0, 0, 20000, true, false, None, Some("A"));
      var ps := [Participant(1, 0, "A", 0, false, Some(3), false)];
      var once := MarkWinners(ps, 0, 3);
      var twice := MarkWinners(once, 0, 5);
      && StoreInvariant([s], ps, 2)
      && WinnersMatchDraw([Complete(s, 3)], once)
      && twice[0].isWinner
      && Complete(Complete(s, 3), 5).winningNumber == Some(5)
      && !WinnersMatchDraw([Complete(Complete(s, 3), 5)], twice)
  {
    var s := Session(0, 0, 20000, true, false, None, Some("A"));
    assert SessionIndex([s], 0) == Some(0);
    var ps := [Participant(1, 0, "A", 0, false, Some(3), false)];
    var twice := MarkWinners(MarkWinners(ps, 0, 3), 0, 5);
    var ss2 := [Complete(Complete(s, 3), 5)];
    assert twice[0].isWinner && !WinsDraw(twice[0], 0, 5);
    assert ss2[0].isCompleted && twice[0].sessionId == ss2[0].id;
    assert !(twice[0].isWinner <==> ss2[0].winningNumber.Some? && WinsDraw(twice[0], ss2[0].id, ss2[0].winningNumber.value));
  }
}
