/**
 * The two tables the game service works on (game sessions and their
 * participants) and the record-store operations it issues against them
 * (findFirst, update, delete, updateMany), as pure functions over the rows
 * in storage order. Creating a row is appending it.
 */
module GameStore {
  import opened Wrappers
  import opened Seqs

  /** Row identifiers; the store generates a fresh one for every created row. */
  type Id = nat

  type UserId = string

  /** A game-session row. Times are milliseconds since the epoch. */
  datatype Session = Session(
    id: Id,
    startedAt: int,
    endsAt: int,
    isActive: bool,
    isCompleted: bool,
    winningNumber: Option<int>,
    startedById: Option<UserId>)

  /** A session-participant row: one user's seat (or place in the queue) in one session. */
  datatype Participant = Participant(
    id: Id,
    sessionId: Id,
    userId: UserId,
    joinedAt: int,
    isInQueue: bool,
    chosenNumber: Option<int>,
    isWinner: bool)

  /** A session with the participants a query includes alongside it. */
  datatype SessionWithParticipants = SessionWithParticipants(session: Session, participants: seq<Participant>)

  /** The filter the service uses for "the current session". */
  predicate IsOpen(s: Session) { s.isActive && !s.isCompleted }

  predicate IsQueued(p: Participant) { p.isInQueue }

  predicate IsSeated(p: Participant) { !p.isInQueue }

  /** findFirst over the sessions with isActive and not isCompleted. */
  function OpenSessionIndex(ss: seq<Session>): (r: Option<nat>)
    ensures r.Some? ==> r.value < |ss| && IsOpen(ss[r.value])
    ensures r.Some? ==> forall j :: 0 <= j < r.value ==> !IsOpen(ss[j])
    ensures r.None? <==> forall j :: 0 <= j < |ss| ==> !IsOpen(ss[j])
  {
    FirstIndex(ss, IsOpen)
  }

  /** The position of the session with id `id`. */
  function SessionIndex(ss: seq<Session>, id: Id): (r: Option<nat>)
    ensures r.Some? ==> r.value < |ss| && ss[r.value].id == id
    ensures r.None? <==> forall j :: 0 <= j < |ss| ==> ss[j].id != id
  {
    FirstIndex(ss, (s: Session) => s.id == id)
  }

  /** The session-side relation filter `session: { isActive: true, isCompleted: false }`. */
  predicate SessionIsOpen(ss: seq<Session>, id: Id) {
    match SessionIndex(ss, id)
    case None => false
    case Some(i) => IsOpen(ss[i])
  }

  /** The participants of session `sid`, in storage order. */
  function ParticipantsOf(ps: seq<Participant>, sid: Id): (r: seq<Participant>)
    ensures forall p :: p in r <==> p in ps && p.sessionId == sid
    ensures multiset(r) <= multiset(ps)
  {
    Filter(ps, InSession(sid))
  }

  function InSession(sid: Id): Participant -> bool {
    (p: Participant) => p.sessionId == sid
  }

  /** A participant of session `sid` that holds a seat. */
  function SeatedInSession(sid: Id): Participant -> bool {
    (p: Participant) => p.sessionId == sid && !p.isInQueue
  }

  /** A participant of session `sid` that waits in its queue. */
  function QueuedInSession(sid: Id): Participant -> bool {
    (p: Participant) => p.sessionId == sid && p.isInQueue
  }

  /**
   * How many participants of session `sid` hold a seat: the length of the
   * non-queued filter over the session's participants, which is the number
   * of rows of that session that are not queued.
   */
  function ActiveCount(ps: seq<Participant>, sid: Id): (n: nat)
    ensures n == |set j | 0 <= j < |ps| && ps[j].sessionId == sid && !ps[j].isInQueue|
  {
    SeatedRows(ps, sid);
    |Filter(ParticipantsOf(ps, sid), IsSeated)|
  }

  /** Counting the seated participants of the session's rows is counting the seated rows of that session. */
  lemma SeatedRows(ps: seq<Participant>, sid: Id)
    ensures |Filter(ParticipantsOf(ps, sid), IsSeated)|
         == |set j | 0 <= j < |ps| && ps[j].sessionId == sid && !ps[j].isInQueue|
  {
    var both := SeatedInSession(sid);
    FilterFilter(ps, InSession(sid), IsSeated, both);
    assert Positions(ps, both) == set j | 0 <= j < |ps| && ps[j].sessionId == sid && !ps[j].isInQueue;
  }

  /** How many participants of session `sid` wait in its queue: the number of its queued rows. */
  function QueueCount(ps: seq<Participant>, sid: Id): (n: nat)
    ensures n == |set j | 0 <= j < |ps| && ps[j].sessionId == sid && ps[j].isInQueue|
  {
    QueuedRows(ps, sid);
    |Filter(ParticipantsOf(ps, sid), IsQueued)|
  }

  /** Counting the queued participants of the session's rows is counting the queued rows of that session. */
  lemma QueuedRows(ps: seq<Participant>, sid: Id)
    ensures |Filter(ParticipantsOf(ps, sid), IsQueued)|
         == |set j | 0 <= j < |ps| && ps[j].sessionId == sid && ps[j].isInQueue|
  {
    var both := QueuedInSession(sid);
    FilterFilter(ps, InSession(sid), IsQueued, both);
    assert Positions(ps, both) == set j | 0 <= j < |ps| && ps[j].sessionId == sid && ps[j].isInQueue;
  }

  /** One more row adds one to its session's seated count exactly when that row is seated. */
  lemma ActiveCountSnoc(ps: seq<Participant>, p: Participant, sid: Id)
    ensures ActiveCount(ps + [p], sid) == ActiveCount(ps, sid) + (if p.sessionId == sid && !p.isInQueue then 1 else 0)
  {
    var both := SeatedInSession(sid);
    FilterFilter(ps, InSession(sid), IsSeated, both);
    FilterFilter(ps + [p], InSession(sid), IsSeated, both);
    assert (ps + [p])[..|ps|] == ps;
  }

  /** Dropping the last row takes its seat, if it held one, off its session's seated count. */
  lemma ActiveCountLast(ps: seq<Participant>, sid: Id)
    requires ps != []
    ensures ActiveCount(ps, sid) == ActiveCount(ps[..|ps| - 1], sid)
      + (if ps[|ps| - 1].sessionId == sid && !ps[|ps| - 1].isInQueue then 1 else 0)
  {
    var init := ps[..|ps| - 1];
    assert ps == init + [ps[|ps| - 1]];
    ActiveCountSnoc(init, ps[|ps| - 1], sid);
  }

  /** Rows that are all seated in session `sid` take as many of its seats as there are rows. */
  lemma {:induction false} AllSeatedCount(ps: seq<Participant>, sid: Id)
    requires forall i :: 0 <= i < |ps| ==> ps[i].sessionId == sid && !ps[i].isInQueue
    ensures ActiveCount(ps, sid) == |ps|
  {
    if ps != [] {
      AllSeatedCount(ps[..|ps| - 1], sid);
      ActiveCountLast(ps, sid);
    }
  }

  /** A seated first row followed only by queued rows takes exactly one seat of its session. */
  lemma FirstSeatedCount(ps: seq<Participant>, sid: Id)
    requires |ps| >= 1 && ps[0].sessionId == sid && !ps[0].isInQueue
    requires forall i :: 1 <= i < |ps| ==> ps[i].isInQueue
    ensures ActiveCount(ps, sid) == 1
  {
    var seated := set j | 0 <= j < |ps| && ps[j].sessionId == sid && !ps[j].isInQueue;
    assert seated == {0};
  }

  /** With `a` seated and `b`, `c` queued, one seat of the session is taken. */
  lemma OneSeatTaken(a: Participant, b: Participant, c: Participant, sid: Id)
    requires a.sessionId == sid && !a.isInQueue && b.isInQueue && c.isInQueue
    ensures ActiveCount([a, b, c], sid) == 1
  {
    FirstSeatedCount([a, b, c], sid);
  }

  /** With `a` seated, seating `b` in the same session takes a second seat. */
  lemma TwoSeatsTaken(a: Participant, b: Participant, sid: Id)
    requires a.sessionId == sid && !a.isInQueue && b.sessionId == sid
    ensures ActiveCount([a, Seat(b)], sid) == 2
  {
    AllSeatedCount([a, Seat(b)], sid);
  }

  /** Every participant of a session is either seated or queued. */
  lemma ActivePlusQueued(ps: seq<Participant>, sid: Id)
    ensures ActiveCount(ps, sid) + QueueCount(ps, sid) == |ParticipantsOf(ps, sid)|
  {
    FilterSplit(ParticipantsOf(ps, sid), IsSeated, IsQueued);
  }

  /**
   * findFirst over the participants of `userId` whose session is open: the
   * lookup of both leaveSession and chooseNumber.
   */
  function OpenParticipantIndex(ss: seq<Session>, ps: seq<Participant>, userId: UserId): (r: Option<nat>)
    ensures r.Some? ==> r.value < |ps| && ps[r.value].userId == userId && SessionIsOpen(ss, ps[r.value].sessionId)
    ensures r.Some? ==> forall j :: 0 <= j < r.value ==> !(ps[j].userId == userId && SessionIsOpen(ss, ps[j].sessionId))
    ensures r.None? <==> forall j :: 0 <= j < |ps| ==> !(ps[j].userId == userId && SessionIsOpen(ss, ps[j].sessionId))
  {
    FirstIndex(ps, (p: Participant) => p.userId == userId && SessionIsOpen(ss, p.sessionId))
  }

  /**
   * The queued participants of session `sid` ordered by joinedAt ascending,
   * first one taken (`take: 1`); among equal joinedAt, the first in storage
   * order.
   */
  function EarliestQueued(ps: seq<Participant>, sid: Id): (r: Option<Participant>)
    ensures r.Some? ==> r.value in ps && r.value.sessionId == sid && r.value.isInQueue
    ensures r.Some? ==> forall p :: p in ps && p.sessionId == sid && p.isInQueue ==> r.value.joinedAt <= p.joinedAt
    ensures r.None? <==> forall p :: p in ps && p.sessionId == sid ==> !p.isInQueue
  {
    if ps == [] then None
    else
      var rest := EarliestQueued(ps[1..], sid);
      assert ps == [ps[0]] + ps[1..];
      if ps[0].sessionId == sid && ps[0].isInQueue && (rest.None? || ps[0].joinedAt <= rest.value.joinedAt)
      then Some(ps[0])
      else rest
  }

  /** The update that seats a queued participant. */
  function Seat(p: Participant): Participant {
    p.(isInQueue := false)
  }

  /** The update of a completed session: the draw is stored and the session closed. */
  function Complete(s: Session, w: int): Session {
    s.(winningNumber := Some(w), isActive := false, isCompleted := true)
  }

  /**
   * update on a table whose rows carry the key `key`: the rows with key `id`
   * become `f` of themselves; a missing row is an error.
   */
  function UpdateById<T>(rows: seq<T>, key: T -> Id, id: Id, f: T -> T): (r: Option<seq<T>>)
    ensures r.None? <==> forall j :: 0 <= j < |rows| ==> key(rows[j]) != id
    ensures r.Some? ==> |r.value| == |rows|
    ensures r.Some? ==> forall j :: 0 <= j < |rows| ==> r.value[j] == if key(rows[j]) == id then f(rows[j]) else rows[j]
  {
    if forall j :: 0 <= j < |rows| ==> key(rows[j]) != id then None
    else Some(seq(|rows|, j requires 0 <= j < |rows| => if key(rows[j]) == id then f(rows[j]) else rows[j]))
  }

  function ParticipantId(p: Participant): Id { p.id }

  function SessionId(s: Session): Id { s.id }

  /** update on the participant table. */
  function UpdateParticipant(ps: seq<Participant>, id: Id, f: Participant -> Participant): Option<seq<Participant>> {
    UpdateById(ps, ParticipantId, id, f)
  }

  /** update on the session table. */
  function UpdateSession(ss: seq<Session>, id: Id, f: Session -> Session): Option<seq<Session>> {
    UpdateById(ss, SessionId, id, f)
  }

  /** delete on the participant table: the row with id `id` goes; a missing row is an error. */
  function DeleteParticipant(ps: seq<Participant>, id: Id): (r: Option<seq<Participant>>)
    ensures r.None? <==> forall j :: 0 <= j < |ps| ==> ps[j].id != id
    ensures r.Some? ==> exists k :: 0 <= k < |ps| && ps[k].id == id && r.value == ps[..k] + ps[k + 1..]
  {
    match FirstIndex(ps, (p: Participant) => p.id == id)
    case None => None
    case Some(k) => Some(ps[..k] + ps[k + 1..])
  }

  /** The filter of the winner-marking updateMany: seated, in session `sid`, chose `w`. */
  predicate WinsDraw(p: Participant, sid: Id, w: int) {
    p.sessionId == sid && p.chosenNumber == Some(w) && !p.isInQueue
  }

  /**
   * updateMany setting isWinner on the participants that win draw `w` of
   * session `sid`; every other row, and every other field, stays as it was.
   */
  function MarkWinners(ps: seq<Participant>, sid: Id, w: int): (r: seq<Participant>)
    ensures |r| == |ps|
    ensures forall j :: 0 <= j < |ps| ==> r[j].isWinner == (ps[j].isWinner || WinsDraw(ps[j], sid, w))
    ensures forall j :: 0 <= j < |ps| ==> r[j] == ps[j].(isWinner := r[j].isWinner)
  {
    if ps == [] then []
    else [ps[0].(isWinner := ps[0].isWinner || WinsDraw(ps[0], sid, w))] + MarkWinners(ps[1..], sid, w)
  }

  /**
   * Nothing stops a session from being completed twice: the second draw's
   * winners are added and the first draw's winners keep their flag.
   */
  lemma {:induction false} MarkWinnersTwice(ps: seq<Participant>, sid: Id, w1: int, w2: int)
    ensures var r := MarkWinners(MarkWinners(ps, sid, w1), sid, w2);
      forall j :: 0 <= j < |ps| ==> r[j].isWinner == (ps[j].isWinner || WinsDraw(ps[j], sid, w1) || WinsDraw(ps[j], sid, w2))
  {
    var m := MarkWinners(ps, sid, w1);
    forall j | 0 <= j < |ps|
      ensures WinsDraw(m[j], sid, w2) == WinsDraw(ps[j], sid, w2)
    {
      assert m[j] == ps[j].(isWinner := m[j].isWinner);
    }
  }

  // Invariants of the two tables that every service operation keeps.

  ghost predicate WellFormedSession(s: Session) {
    && s.isActive == !s.isCompleted
    && (s.winningNumber.Some? <==> s.isCompleted)
    && (s.winningNumber.Some? ==> 1 <= s.winningNumber.value <= 9)
  }

  ghost predicate WellFormedParticipant(p: Participant) {
    && (p.chosenNumber.Some? ==> 1 <= p.chosenNumber.value <= 9 && !p.isInQueue)
    && (p.isWinner ==> !p.isInQueue && p.chosenNumber.Some?)
  }

  /** Ids are unique and below `nextId`; every participant belongs to a stored session; winners sit in completed sessions. */
  ghost predicate StoreInvariant(ss: seq<Session>, ps: seq<Participant>, nextId: nat) {
    && (forall i :: 0 <= i < |ss| ==> ss[i].id < nextId && WellFormedSession(ss[i]))
    && (forall i, j :: 0 <= i < j < |ss| ==> ss[i].id != ss[j].id)
    && (forall i :: 0 <= i < |ps| ==> ps[i].id < nextId && WellFormedParticipant(ps[i]))
    && (forall i :: 0 <= i < |ps| ==> SessionIndex(ss, ps[i].sessionId).Some?)
    && (forall i :: 0 <= i < |ps| && ps[i].isWinner ==> !SessionIsOpen(ss, ps[i].sessionId))
    && (forall i, j :: 0 <= i < j < |ps| ==> ps[i].id != ps[j].id)
  }

  /** Under unique ids, an update by the id stored at position k changes row k alone. */
  lemma UpdateParticipantAt(ps: seq<Participant>, k: nat, f: Participant -> Participant)
    requires k < |ps|
    requires forall i, j :: 0 <= i < j < |ps| ==> ps[i].id != ps[j].id
    ensures UpdateParticipant(ps, ps[k].id, f) == Some(ps[k := f(ps[k])])
  {
    var r := UpdateParticipant(ps, ps[k].id, f);
    assert r.Some?;
    assert r.value == ps[k := f(ps[k])];
  }

  /** Under unique ids, a delete by the id stored at position k removes row k alone. */
  lemma DeleteParticipantAt(ps: seq<Participant>, k: nat)
    requires k < |ps|
    requires forall i, j :: 0 <= i < j < |ps| ==> ps[i].id != ps[j].id
    ensures DeleteParticipant(ps, ps[k].id) == Some(ps[..k] + ps[k + 1..])
  {
  }

  /** Removing a participant row keeps the invariant. */
  lemma RemoveKeepsInvariant(ss: seq<Session>, ps: seq<Participant>, k: nat, nextId: nat)
    requires k < |ps|
    requires StoreInvariant(ss, ps, nextId)
    ensures StoreInvariant(ss, ps[..k] + ps[k + 1..], nextId)
  {
    var ps' := ps[..k] + ps[k + 1..];
    forall i | 0 <= i < |ps'| ensures ps'[i] == ps[if i < k then i else i + 1] {
    }
    forall i, j | 0 <= i < j < |ps'| ensures ps'[i].id != ps'[j].id {
      assert ps'[i] == ps[if i < k then i else i + 1];
      assert ps'[j] == ps[if j < k then j else j + 1];
    }
  }

  /** Replacing a participant row by one with the same id, session and winner flag keeps the invariant. */
  lemma ReplaceKeepsInvariant(ss: seq<Session>, ps: seq<Participant>, k: nat, p: Participant, nextId: nat)
    requires k < |ps|
    requires StoreInvariant(ss, ps, nextId)
    requires p.id == ps[k].id && p.sessionId == ps[k].sessionId && p.isWinner == ps[k].isWinner
    requires WellFormedParticipant(p)
    ensures StoreInvariant(ss, ps[k := p], nextId)
  {
  }

  /** Under unique ids, an update by the id stored at position i changes session i alone. */
  lemma UpdateSessionAt(ss: seq<Session>, i: nat, f: Session -> Session)
    requires i < |ss|
    requires forall a, b :: 0 <= a < b < |ss| ==> ss[a].id != ss[b].id
    ensures UpdateSession(ss, ss[i].id, f) == Some(ss[i := f(ss[i])])
  {
    var r := UpdateSession(ss, ss[i].id, f);
    assert r.Some?;
    assert r.value == ss[i := f(ss[i])];
  }

  /**
   * After row k is deleted, an update by the id of another row q that was
   * stored fails exactly when q is row k itself.
   */
  lemma UpdateAfterDelete(ps: seq<Participant>, k: nat, q: Participant, f: Participant -> Participant)
    requires k < |ps| && q in ps
    requires forall i, j :: 0 <= i < j < |ps| ==> ps[i].id != ps[j].id
    ensures UpdateParticipant(ps[..k] + ps[k + 1..], q.id, f).None? <==> q.id == ps[k].id
  {
    var rest := ps[..k] + ps[k + 1..];
    var m :| 0 <= m < |ps| && ps[m] == q;
    if q.id != ps[k].id {
      var j := if m < k then m else m - 1;
      assert rest[j] == q;
    } else {
      assert forall j :: 0 <= j < |rest| ==> rest[j] == if j < k then ps[j] else ps[j + 1];
    }
  }

  /** Completing stored session i with draw w (1..9) and marking its winners keeps the invariant. */
  lemma CompleteKeepsInvariant(ss: seq<Session>, ps: seq<Participant>, i: nat, w: int, nextId: nat)
    requires i < |ss| && 1 <= w <= 9
    requires StoreInvariant(ss, ps, nextId)
    ensures StoreInvariant(ss[i := Complete(ss[i], w)], MarkWinners(ps, ss[i].id, w), nextId)
  {
    var ss', ps' := ss[i := Complete(ss[i], w)], MarkWinners(ps, ss[i].id, w);
    forall j | 0 <= j < |ps'|
      ensures SessionIndex(ss', ps'[j].sessionId) == SessionIndex(ss, ps[j].sessionId)
    {
      SessionIndexSameIds(ss, ss', ps[j].sessionId);
    }
    forall j | 0 <= j < |ps'| && ps'[j].isWinner
      ensures !SessionIsOpen(ss', ps'[j].sessionId)
    {
      var a := SessionIndex(ss, ps[j].sessionId).value;
      if ps[j].sessionId == ss[i].id {
        SessionIndexOfUnique(ss, i);
      }
    }
  }

  /** The session update of completeSession with draw `w`. */
  function CompleteWith(w: int): Session -> Session {
    (s: Session) => Complete(s, w)
  }

  /** Completing a session keeps the single-open-session property. */
  lemma CompleteKeepsAtMostOneOpen(ss: seq<Session>, i: nat, w: int)
    requires i < |ss|
    requires AtMostOneOpen(ss)
    ensures AtMostOneOpen(ss[i := Complete(ss[i], w)])
  {
  }

  /**
   * Completing a session that was open, on a store where every completed
   * session's winners match its draw, leaves the winners of every completed
   * session, the new one included, matching its draw.
   */
  lemma CompleteOpenKeepsWinnersMatchDraw(ss: seq<Session>, ps: seq<Participant>, i: nat, w: int, nextId: nat)
    requires i < |ss| && 1 <= w <= 9
    requires StoreInvariant(ss, ps, nextId)
    requires IsOpen(ss[i])
    requires WinnersMatchDraw(ss, ps)
    ensures WinnersMatchDraw(ss[i := Complete(ss[i], w)], MarkWinners(ps, ss[i].id, w))
  {
    var ss', ps' := ss[i := Complete(ss[i], w)], MarkWinners(ps, ss[i].id, w);
    forall a, j | 0 <= a < |ss'| && 0 <= j < |ps'| && ss'[a].isCompleted && ps'[j].sessionId == ss'[a].id
      ensures ps'[j].isWinner <==> ss'[a].winningNumber.Some? && WinsDraw(ps'[j], ss'[a].id, ss'[a].winningNumber.value)
    {
      SessionIndexOfUnique(ss, a);
      if a != i {
        assert ss'[a] == ss[a];
      }
    }
  }

  /** Under unique ids, looking a session up by the id stored at position k finds k. */
  lemma SessionIndexOfUnique(ss: seq<Session>, k: nat)
    requires k < |ss|
    requires forall i, j :: 0 <= i < j < |ss| ==> ss[i].id != ss[j].id
    ensures SessionIndex(ss, ss[k].id) == Some(k)
  {
  }

  /** A session lookup depends only on the ids in storage order. */
  lemma SessionIndexSameIds(ss: seq<Session>, ss': seq<Session>, id: Id)
    requires |ss| == |ss'|
    requires forall j :: 0 <= j < |ss| ==> ss[j].id == ss'[j].id
    ensures SessionIndex(ss, id) == SessionIndex(ss', id)
  {
    var a, b := SessionIndex(ss, id), SessionIndex(ss', id);
    if a.Some? && b.Some? {
      assert !(a.value < b.value) && !(b.value < a.value);
    }
  }

  /** Appending a session does not change where the earlier ones are found. */
  lemma SessionIndexAppend(ss: seq<Session>, s: Session, id: Id)
    requires SessionIndex(ss, id).Some?
    ensures SessionIndex(ss + [s], id) == SessionIndex(ss, id)
  {
    var a := SessionIndex(ss, id);
    assert (ss + [s])[a.value] == ss[a.value];
  }

  /** The single-open-session property: no two stored sessions are open. */
  ghost predicate AtMostOneOpen(ss: seq<Session>) {
    forall i, j :: 0 <= i < j < |ss| && IsOpen(ss[i]) ==> !IsOpen(ss[j])
  }

  /**
   * In every completed session, the winners are exactly the seated
   * participants whose number is the stored winning number.
   */
  ghost predicate WinnersMatchDraw(ss: seq<Session>, ps: seq<Participant>) {
    forall i, j :: 0 <= i < |ss| && 0 <= j < |ps| && ss[i].isCompleted && ps[j].sessionId == ss[i].id ==>
      (ps[j].isWinner <==> ss[i].winningNumber.Some? && WinsDraw(ps[j], ss[i].id, ss[i].winningNumber.value))
  }
}
