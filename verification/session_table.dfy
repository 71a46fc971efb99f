/** The measurement sessions of tools/energy-meter/server.py: request threads that
    meet in one table under a lock, but stop their sessions and publish the result
    after letting the lock go. */
module SessionTable {
  import opened Options
  import opened Sequences

  /** Sessions are numbered in the order in which they are granted. */
  type SessionId = nat

  datatype Grant = Began(id: SessionId) | Ended(id: SessionId)

  /** `taken` were taken out of the table and still measure; `stopped` have measured
      but have not been published; `stops` lists every session stopped so far. */
  datatype State = State(
    table: map<string, SessionId>, last: Option<SessionId>, begun: nat,
    taken: set<SessionId>, stopped: set<SessionId>, grants: seq<Grant>, stops: seq<SessionId>)

  /** What a request thread does next.  A missing tag is the empty string, which the
      server treats alike; `uuid` is the one it would make up. */
  datatype Event = Start(tag: string, uuid: string) | Take(tag: string) | Stop(id: SessionId) | Publish(id: SessionId)

  datatype Answer = Granted(id: SessionId) | AlreadyActive | SameTagActive | NoSession | Done

  predicate CanHappen(s: State, e: Event) {
    && (e.Stop? ==> e.id in s.taken)
    && (e.Publish? ==> e.id in s.stopped)
  }

  function NameFor(tag: string, uuid: string): string {
    if tag != "" then tag else uuid
  }

  ghost function OnlyKey(table: map<string, SessionId>): (name: string)
    requires |table| == 1
    ensures name in table
  {
    var name :| name in table.Keys;
    name
  }

  ghost function Popped(s: State, name: string): (State, Answer)
    requires name in s.table
  {
    var id := s.table[name];
    (s.(table := s.table - {name}, taken := s.taken + {id}, grants := s.grants + [Ended(id)]), Granted(id))
  }

  ghost function Step(s: State, e: Event): (State, Answer) {
    match e
    case Start(tag, uuid) =>
      if s.table != map[] then (s, AlreadyActive)
      else if NameFor(tag, uuid) in s.table then (s, SameTagActive)
      else (s.(table := s.table[NameFor(tag, uuid) := s.begun], begun := s.begun + 1,
               grants := s.grants + [Began(s.begun)]), Granted(s.begun))
    case Take(tag) =>
      if tag != "" then if tag in s.table then Popped(s, tag) else (s, NoSession)
      else if |s.table| == 1 then Popped(s, OnlyKey(s.table))
      else (s, NoSession)
    case Stop(id) => (s.(taken := s.taken - {id}, stopped := s.stopped + {id}, stops := s.stops + [id]), Done)
    case Publish(id) => (s.(stopped := s.stopped - {id}, last := Some(id)), Done)
  }

  const IDLE := State(map[], None, 0, {}, {}, [], [])

  ghost function After(run: seq<Event>): State {
    if run == [] then IDLE else Step(After(run[..|run| - 1]), run[|run| - 1]).0
  }

  /** Every event of the run can happen when it does. */
  ghost predicate Possible(run: seq<Event>) {
    run == [] || (Possible(run[..|run| - 1]) && CanHappen(After(run[..|run| - 1]), run[|run| - 1]))
  }

  /** The module's globals; the ghost fields remember what the threads have done. */
  class Server {
    var sessions: map<string, SessionId>
    var lastResult: Option<SessionId>
    var begun: nat
    ghost var taken: set<SessionId>
    ghost var stopped: set<SessionId>
    ghost var grants: seq<Grant>
    ghost var stops: seq<SessionId>

    ghost function View(): State
      reads this
    {
      State(sessions, lastResult, begun, taken, stopped, grants, stops)
    }

    constructor ()
      ensures View() == IDLE
    {
      sessions, lastResult, begun := map[], None, 0;
      taken, stopped, grants, stops := {}, {}, [], [];
    }

    /** What `/measure-start` does while it holds the lock. */
    method MeasureStart(bodyTag: string, uuid: string) returns (answer: Answer)
      modifies this
      ensures (View(), answer) == Step(old(View()), Start(bodyTag, uuid))
    {
      var tag := if bodyTag != "" then bodyTag else uuid;
      if sessions != map[] { return AlreadyActive; }
      if tag in sessions { return SameTagActive; }
      answer := Granted(begun);
      grants := grants + [Began(begun)];
      sessions := sessions[tag := begun];
      begun := begun + 1;
    }

    /** What `/measure-stop` does while it holds the lock. */
    method TakeSession(tag: string) returns (answer: Answer)
      modifies this
      ensures (View(), answer) == Step(old(View()), Take(tag))
    {
      var name := tag;
      if tag != "" {
        if tag !in sessions { return NoSession; }
      } else if |sessions| == 1 {
        name :| name in sessions.Keys;
        OneKey(sessions, name, OnlyKey(sessions));
      } else {
        return NoSession;
      }
      var session := sessions[name];
      sessions := sessions - {name};
      taken, grants := taken + {session}, grants + [Ended(session)];
      return Granted(session);
    }

    /** What it does afterwards, in two steps that other threads can come between. */
    method StopSession(session: SessionId)
      requires session in taken
      modifies this
      ensures View() == Step(old(View()), Stop(session)).0
    {
      taken, stopped, stops := taken - {session}, stopped + {session}, stops + [session];
    }

    method PublishResult(session: SessionId)
      requires session in stopped
      modifies this
      ensures View() == Step(old(View()), Publish(session)).0
    {
      lastResult := Some(session);
      stopped := stopped - {session};
    }
  }

  lemma OneKey(table: map<string, SessionId>, a: string, b: string)
    requires |table| == 1 && a in table && b in table
    ensures a == b
  {
    if a != b {
      assert {a, b} <= table.Keys;
      SubsetIsSmaller({a, b}, table.Keys);
    }
  }

  lemma {:induction false} SubsetIsSmaller<T>(a: set<T>, b: set<T>)
    requires a <= b
    ensures |a| <= |b|
    decreases a
  {
    if a != {} {
      var x :| x in a;
      SubsetIsSmaller(a - {x}, b - {x});
    }
  }

  // What every run keeps.

  function Nth(i: nat): Grant {
    if i % 2 == 0 then Began(i / 2) else Ended(i / 2)
  }

  ghost predicate Alternating(grants: seq<Grant>) {
    forall i :: 0 <= i < |grants| ==> grants[i] == Nth(i)
  }

  ghost predicate OneSession(s: State) {
    && |s.table| <= 1
    && (forall name :: name in s.table ==> s.begun > 0 && s.table[name] == s.begun - 1)
    && |s.grants| == 2 * s.begun - |s.table|
    && Alternating(s.grants)
  }

  /** The sessions that were granted a stop. */
  function EndedCount(s: State): int {
    s.begun - |s.table|
  }

  ghost predicate Accounted(s: State) {
    Accounts(EndedCount(s), s.taken, s.stopped, s.stops)
  }

  /** Of the first `n` sessions each is still measuring or has been stopped once. */
  ghost predicate Accounts(n: int, taken: set<SessionId>, stopped: set<SessionId>, stops: seq<SessionId>) {
    && (forall id :: id in taken + stopped ==> id < n)
    && taken !! stopped
    && (forall id :: 0 <= id < n ==> (id in stops <==> id !in taken))
    && (forall id :: id in stops ==> id < n)
    && Distinct(stops)
  }

  lemma OneMoreTaken(n: nat, taken: set<SessionId>, stopped: set<SessionId>, stops: seq<SessionId>)
    requires Accounts(n, taken, stopped, stops)
    ensures Accounts(n + 1, taken + {n}, stopped, stops)
  {
    hide Distinct;
    assert n !in stops && n !in taken + stopped;
  }

  lemma OneMoreStopped(n: int, taken: set<SessionId>, stopped: set<SessionId>, stops: seq<SessionId>, id: SessionId)
    requires Accounts(n, taken, stopped, stops) && id in taken
    ensures Accounts(n, taken - {id}, stopped + {id}, stops + [id])
  {
    hide Distinct;
    assert id in taken + stopped && id < n && id !in stops;
    forall x ensures x in stops + [id] <==> x in stops || x == id { }
    forall x ensures x in (taken - {id}) + (stopped + {id}) <==> x in taken + stopped { }
    StopsDistinct(stops, id);
  }

  lemma StopsDistinct(stops: seq<SessionId>, id: SessionId)
    requires Distinct(stops) && id !in stops
    ensures Distinct(stops + [id])
  {
  }

  lemma OnePublished(n: int, taken: set<SessionId>, stopped: set<SessionId>, stops: seq<SessionId>, id: SessionId)
    requires Accounts(n, taken, stopped, stops) && id in stopped
    ensures Accounts(n, taken, stopped - {id}, stops)
  {
    hide Distinct;
    assert forall x :: x in taken + (stopped - {id}) ==> x in taken + stopped;
  }

  /** Taking the one session out leaves the table empty. */
  lemma PopEmpties(table: map<string, SessionId>, name: string)
    requires |table| == 1 && name in table
    ensures table - {name} == map[]
  {
    forall other | other in table ensures other == name { OneKey(table, other, name); }
  }

  lemma StartKeeps(s: State, e: Event)
    requires OneSession(s) && Accounted(s) && e.Start?
    ensures var t := Step(s, e).0; OneSession(t) && Accounted(t)
    ensures Step(s, e).1 != SameTagActive
  {
    if s.table == map[] {
      var name := NameFor(e.tag, e.uuid);
      var t := Step(s, e).0;
      assert t.table == map[name := s.begun];
      assert EndedCount(t) == EndedCount(s);
    }
  }

  lemma TakeKeeps(s: State, e: Event)
    requires OneSession(s) && Accounted(s) && e.Take?
    ensures var t := Step(s, e).0; OneSession(t) && Accounted(t)
  {
    hide Accounts, Step, OneSession;
    TakeKeepsAlternating(s, e);
    if Step(s, e).0 != s {
      TakesOnly(s, e);
      OneMoreTaken(s.begun - 1, s.taken, s.stopped, s.stops);
    }
  }

  lemma TakeKeepsAlternating(s: State, e: Event)
    requires OneSession(s) && e.Take?
    ensures OneSession(Step(s, e).0)
  {
    if Step(s, e).0 != s {
      TakesOnly(s, e);
      assert Nth(|s.grants|) == Ended(s.begun - 1);
    }
  }

  /** A granted stop takes the session begun last. */
  lemma TakesOnly(s: State, e: Event)
    requires OneSession(s) && e.Take? && Step(s, e).0 != s
    ensures |s.table| == 1 && s.begun > 0
    ensures Step(s, e) == (s.(table := map[], taken := s.taken + {s.begun - 1}, grants := s.grants + [Ended(s.begun - 1)]),
                           Granted(s.begun - 1))
  {
    hide Alternating;
    var name := if e.tag != "" then e.tag else OnlyKey(s.table);
    assert name in s.table;
    PopEmpties(s.table, name);
  }

  lemma StopKeeps(s: State, e: Event)
    requires OneSession(s) && Accounted(s) && CanHappen(s, e) && (e.Stop? || e.Publish?)
    ensures var t := Step(s, e).0; OneSession(t) && Accounted(t)
  {
    hide Accounts;
    assert Step(s, e).0.table == s.table;
    if e.Stop? { OneMoreStopped(EndedCount(s), s.taken, s.stopped, s.stops, e.id); }
    else { OnePublished(EndedCount(s), s.taken, s.stopped, s.stops, e.id); }
  }

  lemma {:induction false} EveryRunKeeps(run: seq<Event>)
    requires Possible(run)
    ensures OneSession(After(run)) && Accounted(After(run))
  {
    if run != [] {
      var (front, e) := (run[..|run| - 1], run[|run| - 1]);
      EveryRunKeeps(front);
      match e
      case Start(_, _) => StartKeeps(After(front), e);
      case Take(_) => TakeKeeps(After(front), e);
      case Stop(_) => StopKeeps(After(front), e);
      case Publish(_) => StopKeeps(After(front), e);
    }
  }

  /** Whatever the threads do, and in whatever order: at most one session is in the
      table, granted starts and granted stops alternate beginning with a start, each
      stop ending the session begun just before, and no session is stopped twice. */
  lemma EveryRun(run: seq<Event>)
    requires Possible(run)
    ensures var s := After(run);
            && |s.table| <= 1
            && (forall k :: 0 <= 2 * k < |s.grants| ==> s.grants[2 * k] == Began(k))
            && (forall k :: 0 <= 2 * k < |s.grants| - 1 ==> s.grants[2 * k + 1] == Ended(k))
            && Distinct(s.stops)
  {
    EveryRunKeeps(run);
    GrantsAlternate(After(run).grants);
  }

  lemma GrantsAlternate(grants: seq<Grant>)
    requires Alternating(grants)
    ensures forall k :: 0 <= 2 * k < |grants| ==> grants[2 * k] == Began(k)
    ensures forall k :: 0 <= 2 * k < |grants| - 1 ==> grants[2 * k + 1] == Ended(k)
  {
    forall k | 0 <= 2 * k < |grants| ensures grants[2 * k] == Began(k) {
      assert grants[2 * k] == Nth(2 * k);
    }
    forall k | 0 <= 2 * k < |grants| - 1 ensures grants[2 * k + 1] == Ended(k) {
      assert grants[2 * k + 1] == Nth(2 * k + 1);
    }
  }

  /** A start is granted exactly when the table is empty, so the test for a session
      of the same tag never refuses anything. */
  lemma SecondConflictUnreachable(s: State, tag: string, uuid: string)
    ensures Step(s, Start(tag, uuid)).1 != SameTagActive
    ensures Step(s, Start(tag, uuid)).1.Granted? <==> s.table == map[]
  {
  }

  /** A session can always be ended: by its tag, or by giving none. */
  lemma ActiveCanBeEnded(run: seq<Event>, name: string)
    requires Possible(run) && name in After(run).table
    ensures After(run).begun > 0
    ensures Step(After(run), Take(name)).1 == Step(After(run), Take("")).1 == Granted(After(run).begun - 1)
    ensures forall other :: other != "" && other != name ==> Step(After(run), Take(other)) == (After(run), NoSession)
  {
    EveryRunKeeps(run);
    var s := After(run);
    assert |s.table| == 1;
    OneKey(s.table, name, OnlyKey(s.table));
  }

  /** A session that is granted is found again: by its tag, by the identifier made up for
      it when it came without one, or by giving none; and by nothing else. */
  lemma GrantedIsFound(run: seq<Event>, tag: string, uuid: string, id: SessionId)
    requires Possible(run) && Step(After(run), Start(tag, uuid)).1 == Granted(id)
    ensures var begun := After(run + [Start(tag, uuid)]);
            && Possible(run + [Start(tag, uuid)])
            && begun.table == (if tag != "" then map[tag := id] else map[uuid := id])
            && Step(begun, Take("")).1 == Granted(id)
            && (tag != "" ==> Step(begun, Take(tag)).1 == Granted(id))
            && (tag == "" && uuid != "" ==> Step(begun, Take(uuid)).1 == Granted(id))
            && forall other :: other !in {"", tag, uuid} ==> Step(begun, Take(other)) == (begun, NoSession)
  {
    Snoc(run, Start(tag, uuid));
    var begun := Step(After(run), Start(tag, uuid)).0;
    var name := if tag != "" then tag else uuid;
    assert begun.table == map[name := id];
    OneKey(begun.table, name, OnlyKey(begun.table));
  }

  // Sessions are meant to measure one at a time: the counters are the host's.

  /** One session in the table while another still measures. */
  ghost predicate Overlapping(s: State) {
    s.table != map[] && s.taken != {}
  }

  ghost predicate OverlapsAt(run: seq<Event>, i: nat)
    requires i <= |run|
  {
    Overlapping(After(run[..i]))
  }

  /** The `i`th event is a start that finds the table empty, but the session before
      not yet stopped. */
  ghost predicate StartsEarly(run: seq<Event>, i: nat)
    requires i < |run|
  {
    run[i].Start? && After(run[..i]).table == map[] && After(run[..i]).taken != {}
  }

  lemma OneStepOverlaps(s: State, e: Event)
    requires OneSession(s) && CanHappen(s, e) && !Overlapping(s)
    ensures Overlapping(Step(s, e).0) <==> e.Start? && s.table == map[] && s.taken != {}
  {
    if e.Take? && Step(s, e).0 != s { TakesOnly(s, e); }
  }

  lemma LooksBack(run: seq<Event>)
    requires run != []
    ensures run[..|run|] == run
    ensures forall i :: 0 <= i < |run| ==> OverlapsAt(run[..|run| - 1], i) == OverlapsAt(run, i)
    ensures forall i :: 0 <= i < |run| - 1 ==> StartsEarly(run[..|run| - 1], i) == StartsEarly(run, i)
  {
    hide After;
    var front := run[..|run| - 1];
    forall i | 0 <= i < |run| ensures OverlapsAt(front, i) == OverlapsAt(run, i) { assert front[..i] == run[..i]; }
    forall i | 0 <= i < |run| - 1 ensures StartsEarly(front, i) == StartsEarly(run, i) { assert front[..i] == run[..i]; }
  }

  ghost predicate EverOverlaps(run: seq<Event>) {
    exists i :: 0 <= i <= |run| && OverlapsAt(run, i)
  }

  ghost predicate EverStartsEarly(run: seq<Event>) {
    exists i :: 0 <= i < |run| && StartsEarly(run, i)
  }

  lemma EverInTheEnd(run: seq<Event>)
    requires run != []
    ensures EverOverlaps(run) <==> EverOverlaps(run[..|run| - 1]) || OverlapsAt(run, |run|)
    ensures EverStartsEarly(run) <==> EverStartsEarly(run[..|run| - 1]) || StartsEarly(run, |run| - 1)
  {
    hide OverlapsAt, StartsEarly;
    LooksBack(run);
    var front := run[..|run| - 1];
    if EverOverlaps(front) {
      var i :| 0 <= i <= |front| && OverlapsAt(front, i);
      assert OverlapsAt(run, i);
    }
    if EverOverlaps(run) && !OverlapsAt(run, |run|) {
      var i :| 0 <= i < |run| && OverlapsAt(run, i);
      assert OverlapsAt(front, i);
    }
    if EverStartsEarly(front) {
      var i :| 0 <= i < |front| && StartsEarly(front, i);
      assert StartsEarly(run, i);
    }
    if EverStartsEarly(run) && !StartsEarly(run, |run| - 1) {
      var i :| 0 <= i < |run| - 1 && StartsEarly(run, i);
      assert StartsEarly(front, i);
    }
  }

  /** Measurements overlap in a run exactly when some start is granted before the
      thread that took the last session out of the table has stopped it. */
  lemma {:induction false} OverlapExactly(run: seq<Event>)
    requires Possible(run)
    ensures EverOverlaps(run) <==> EverStartsEarly(run)
  {
    hide EverOverlaps, EverStartsEarly;
    if run == [] {
      NothingYet();
    } else {
      var (front, e) := (run[..|run| - 1], run[|run| - 1]);
      OverlapExactly(front);
      EverInTheEnd(run);
      EveryRunKeeps(front);
      assert run[..|run|] == run;
      if Overlapping(After(front)) {
        OverlapsNow(front);
      } else {
        OneStepOverlaps(After(front), e);
      }
    }
  }

  lemma NothingYet()
    ensures !EverOverlaps([]) && !EverStartsEarly([])
  {
    assert !OverlapsAt([], 0);
  }

  lemma OverlapsNow(run: seq<Event>)
    requires Overlapping(After(run))
    ensures EverOverlaps(run)
  {
    assert run[..|run|] == run;
    assert OverlapsAt(run, |run|);
  }

  /** Callers that wait: a start is asked for only when no stop is being answered. */
  ghost predicate Patient(run: seq<Event>) {
    run == [] ||
    (&& Patient(run[..|run| - 1])
     && (run[|run| - 1].Start? ==> After(run[..|run| - 1]).taken + After(run[..|run| - 1]).stopped == {}))
  }

  ghost predicate InTurn(s: State) {
    && (s.taken + s.stopped != {} ==> s.table == map[] && forall id :: id in s.taken + s.stopped ==> id == s.begun - 1)
    && (s.taken + s.stopped == {} ==> s.last == if EndedCount(s) == 0 then None else Some(EndedCount(s) - 1))
  }

  lemma StepInTurn(s: State, e: Event)
    requires OneSession(s) && Accounted(s) && InTurn(s) && CanHappen(s, e)
    requires e.Start? ==> s.taken + s.stopped == {}
    ensures InTurn(Step(s, e).0)
  {
    hide InTurn, OneSession, Accounts, Step;
    match e
    case Start(_, _) => StartInTurn(s, e);
    case Take(_) => TakeInTurn(s, e);
    case Stop(_) => AnswerInTurn(s, e);
    case Publish(_) => AnswerInTurn(s, e);
  }

  lemma StartInTurn(s: State, e: Event)
    requires OneSession(s) && InTurn(s) && e.Start? && s.taken + s.stopped == {}
    ensures InTurn(Step(s, e).0)
  {
    hide Alternating;
    if s.table == map[] { assert Step(s, e).0.table == map[NameFor(e.tag, e.uuid) := s.begun]; }
  }

  lemma AnswerInTurn(s: State, e: Event)
    requires OneSession(s) && Accounted(s) && InTurn(s) && CanHappen(s, e) && (e.Stop? || e.Publish?)
    ensures InTurn(Step(s, e).0)
  {
    hide Alternating, Distinct;
    var t := Step(s, e).0;
    assert e.id in s.taken + s.stopped;
    if e.Stop? { assert t.taken + t.stopped == s.taken + s.stopped; }
    else { OnlyOne(s.taken, s.stopped, e.id); }
  }

  lemma TakeInTurn(s: State, e: Event)
    requires OneSession(s) && InTurn(s) && e.Take?
    ensures InTurn(Step(s, e).0)
  {
    hide Alternating;
    var t := Step(s, e).0;
    if t != s {
      TakesOnly(s, e);
      assert s.taken + s.stopped == {};
      assert t.taken + t.stopped == {s.begun - 1};
    }
  }

  lemma OnlyOne(taken: set<SessionId>, stopped: set<SessionId>, id: SessionId)
    requires id in stopped && taken !! stopped && forall x :: x in taken + stopped ==> x == id
    ensures taken == {} && stopped == {id}
  {
    forall x ensures (x in taken || x in stopped) ==> x == id { assert x in taken + stopped || (x !in taken && x !in stopped); }
  }

  /** When callers wait, no two sessions ever measure at once, and between requests
      `/measure` reports the session ended last. */
  lemma {:induction false} PatientCallersAreSafe(run: seq<Event>)
    requires Possible(run) && Patient(run)
    ensures InTurn(After(run)) && !Overlapping(After(run))
  {
    if run != [] {
      var (front, e) := (run[..|run| - 1], run[|run| - 1]);
      PatientCallersAreSafe(front);
      EveryRunKeeps(front);
      StepInTurn(After(front), e);
    }
    if After(run).taken != {} {
      var id :| id in After(run).taken;
      assert id in After(run).taken + After(run).stopped;
    }
  }

  /** Otherwise two sessions can measure at once, and the result of the earlier one can
      replace that of the later. */
  lemma LateResultWins()
    ensures var run := [Start("a", "u"), Take("a"), Start("b", "v"), Take("b"), Stop(1), Publish(1), Stop(0), Publish(0)];
            && Possible(run) && EverOverlaps(run)
            && After(run).last == Some(0) && After(run).begun == 2 && After(run).taken + After(run).stopped == {}
  {
    Snoc([], Start("a", "u"));
    Snoc([Start("a", "u")], Take("a"));
    var begun := [Start("a", "u"), Take("a")];
    assert map["a" := 0] - {"a"} == map[] && map["b" := 1] - {"b"} == map[];
    assert After(begun) == State(map[], None, 1, {0}, {}, [Began(0), Ended(0)], []);
    Snoc(begun, Start("b", "v"));
    Snoc(begun + [Start("b", "v")], Take("b"));
    var both := [Start("a", "u"), Take("a"), Start("b", "v"), Take("b")];
    assert both == begun + [Start("b", "v")] + [Take("b")];
    assert After(both) == State(map[], None, 2, {0, 1}, {}, [Began(0), Ended(0), Began(1), Ended(1)], []);
    Snoc(both, Stop(1));
    Snoc(both + [Stop(1)], Publish(1));
    var late := both + [Stop(1)] + [Publish(1)];
    assert After(late).taken == {0} && After(late).stopped == {} && After(late).begun == 2;
    Snoc(late, Stop(0));
    Snoc(late + [Stop(0)], Publish(0));
    var run := [Start("a", "u"), Take("a"), Start("b", "v"), Take("b"), Stop(1), Publish(1), Stop(0), Publish(0)];
    assert late + [Stop(0)] + [Publish(0)] == run;
    assert run[..3] == begun + [Start("b", "v")];
    assert OverlapsAt(run, 3);
  }

  // When the last result is right.

  ghost function Pending(s: State): set<SessionId> {
    s.taken + s.stopped
  }

  /** The session ended last, if any. */
  function LatestEnded(s: State): Option<SessionId> {
    if EndedCount(s) <= 0 then None else Some(EndedCount(s) - 1)
  }

  /** It is the one that the last granted stop ended. */
  lemma LatestExactly(run: seq<Event>, id: SessionId)
    requires Possible(run)
    ensures var grants := After(run).grants;
            LatestEnded(After(run)) == Some(id) <==>
              exists i :: 0 <= i < |grants| && grants[i] == Ended(id) && forall j :: i < j < |grants| ==> !grants[j].Ended?
  {
    EveryRunKeeps(run);
    hide After, Possible, Accounted, OneSession;
    LatestGrant(After(run), id);
  }

  lemma LatestGrant(s: State, id: SessionId)
    requires OneSession(s)
    ensures LatestEnded(s) == Some(id) <==>
              exists i :: 0 <= i < |s.grants| && s.grants[i] == Ended(id)
                          && forall j :: i < j < |s.grants| ==> !s.grants[j].Ended?
  {
    var ended := s.begun - |s.table|;
    assert LatestEnded(s) == if ended <= 0 then None else Some(ended - 1);
    assert |s.grants| == 2 * ended + |s.table|;
    if s.begun == 0 { assert s.grants == []; }
    hide LatestEnded, OneSession, Alternating;
    if ended >= 0 { LastEnded(s.grants, ended, id); }
  }

  lemma LastEnded(grants: seq<Grant>, ended: nat, id: SessionId)
    requires Alternating(grants) && 2 * ended <= |grants| <= 2 * ended + 1
    ensures ended > 0 && id == ended - 1 <==>
              exists i :: 0 <= i < |grants| && grants[i] == Ended(id) && forall j :: i < j < |grants| ==> !grants[j].Ended?
  {
    if ended > 0 {
      var last := 2 * ended - 1;
      assert grants[last] == Nth(last) == Ended(ended - 1);
      forall j | last < j < |grants| ensures !grants[j].Ended? { assert grants[j] == Nth(2 * ended) == Began(ended); }
    }
    if i :| 0 <= i < |grants| && grants[i] == Ended(id) && forall j :: i < j < |grants| ==> !grants[j].Ended? {
      assert grants[i] == Nth(i);
    }
  }

  /** Going on like this answers every request under way, and nothing else. */
  ghost predicate Settles(run: seq<Event>, more: seq<Event>) {
    && (forall e :: e in more ==> e.Stop? || e.Publish?)
    && Possible(run + more) && Pending(After(run + more)) == {}
  }

  /** Only the session ended last can still be published, or it has been. */
  ghost predicate OnlyLatest(s: State) {
    && (forall id :: id in Pending(s) ==> Some(id) == LatestEnded(s))
    && (Pending(s) == {} ==> s.last == LatestEnded(s))
  }

  /** However the requests under way are answered, `/measure` then reports the session
      ended last, if and only if no earlier session is still to be published and, when
      none is at all, it reports that session already. */
  lemma LastResultExactly(run: seq<Event>)
    requires Possible(run)
    ensures (forall more :: Settles(run, more) ==> After(run + more).last == LatestEnded(After(run)))
       <==> OnlyLatest(After(run))
  {
    var s := After(run);
    hide After, Possible, Step, EndedCount;
    if OnlyLatest(s) {
      forall more | Settles(run, more) ensures After(run + more).last == LatestEnded(s) { SettlingKeepsLatest(run, more); }
    } else if Pending(s) == {} {
      assert run + [] == run;
      assert Settles(run, []);
    } else {
      var id :| id in Pending(s) && Some(id) != LatestEnded(s);
      var more := WindUp(run, id);
      assert Settles(run, more);
    }
  }

  lemma {:induction false} SettlingKeepsLatest(run: seq<Event>, more: seq<Event>)
    requires Possible(run + more) && forall e :: e in more ==> e.Stop? || e.Publish?
    requires OnlyLatest(After(run))
    ensures OnlyLatest(After(run + more)) && LatestEnded(After(run + more)) == LatestEnded(After(run))
    decreases |more|
  {
    hide After, Possible, Step, OnlyLatest, LatestEnded, OneSession, Accounted, CanHappen;
    if more == [] {
      assert run + more == run;
    } else {
      var (front, e) := (more[..|more| - 1], more[|more| - 1]);
      assert run + more == run + front + [e] && e in more;
      Snoc(run + front, e);
      SettlingKeepsLatest(run, front);
      EveryRunKeeps(run + front);
      AnswerKeepsLatest(After(run + front), e);
    }
  }

  lemma AnswerKeepsLatest(s: State, e: Event)
    requires Accounted(s) && OnlyLatest(s) && CanHappen(s, e) && (e.Stop? || e.Publish?)
    ensures OnlyLatest(Step(s, e).0) && LatestEnded(Step(s, e).0) == LatestEnded(s)
  {
    assert e.id in Pending(s);
    AnswerPends(s, e);
    hide Step, Accounted, LatestEnded, Pending;
  }

  /** What an answer changes, seen from outside. */
  lemma AnswerPends(s: State, e: Event)
    requires Accounted(s) && CanHappen(s, e) && (e.Stop? || e.Publish?)
    ensures var t := Step(s, e).0;
            && LatestEnded(t) == LatestEnded(s)
            && Pending(t) == (if e.Stop? then Pending(s) else Pending(s) - {e.id})
            && t.last == (if e.Stop? then s.last else Some(e.id))
  {
    hide Distinct;
    assert EndedCount(Step(s, e).0) == EndedCount(s);
  }

  /** The threads under way can be answered so that a chosen one comes last. */
  lemma {:induction false} WindUp(run: seq<Event>, id: SessionId) returns (more: seq<Event>)
    requires Possible(run) && id in Pending(After(run))
    ensures Settles(run, more) && After(run + more).last == Some(id)
    decreases 2 * |After(run).taken| + |After(run).stopped|
  {
    hide After, Possible, Step, Settles, CanHappen, OneSession, Accounted;
    EveryRunKeeps(run);
    var e := NextAnswer(After(run), id);
    Snoc(run, e);
    AnswerShrinks(After(run), e);
    if e == Publish(id) {
      more := [e];
      SettledBy(run, e);
    } else {
      var rest := WindUp(run + [e], id);
      SettlesSooner(run, e, rest);
      more := [e] + rest;
    }
  }

  lemma SettledBy(run: seq<Event>, e: Event)
    requires (e.Stop? || e.Publish?) && Possible(run + [e]) && Pending(After(run + [e])) == {}
    ensures Settles(run, [e])
  {
  }

  lemma SettlesSooner(run: seq<Event>, e: Event, rest: seq<Event>)
    requires (e.Stop? || e.Publish?) && Settles(run + [e], rest)
    ensures Settles(run, [e] + rest) && After(run + ([e] + rest)) == After(run + [e] + rest)
  {
    hide After, Possible;
    assert run + [e] + rest == run + ([e] + rest);
  }

  /** The next answer on the way to that: others first, the chosen one when alone. */
  lemma NextAnswer(s: State, id: SessionId) returns (e: Event)
    requires Accounted(s) && id in Pending(s)
    ensures CanHappen(s, e) && (e.Stop? || e.Publish?)
    ensures e == Publish(id) ==> Pending(Step(s, e).0) == {} && Step(s, e).0.last == Some(id)
    ensures e != Publish(id) ==> id in Pending(Step(s, e).0)
  {
    if other :| other in Pending(s) && other != id {
      e := if other in s.taken then Stop(other) else Publish(other);
    } else {
      e := if id in s.taken then Stop(id) else Publish(id);
      assert forall x :: x in Pending(s) ==> x == id;
      if e.Publish? { OnlyOne(s.taken, s.stopped, id); }
    }
  }

  lemma AnswerShrinks(s: State, e: Event)
    requires CanHappen(s, e) && (e.Stop? || e.Publish?)
    ensures var t := Step(s, e).0; 2 * |t.taken| + |t.stopped| < 2 * |s.taken| + |s.stopped|
  {
    if e.Stop? {
      assert s.taken == (s.taken - {e.id}) + {e.id};
      SubsetIsSmaller(s.stopped + {e.id}, s.stopped + {e.id});
    } else {
      assert s.stopped == (s.stopped - {e.id}) + {e.id};
    }
  }

  lemma Snoc(run: seq<Event>, e: Event)
    ensures After(run + [e]) == Step(After(run), e).0
    ensures Possible(run + [e]) <==> Possible(run) && CanHappen(After(run), e)
  {
    assert (run + [e])[..|run|] == run;
  }
}
