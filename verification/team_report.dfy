/** The hour accounting of `buildReport` in
    eduai-summer-2026/scripts/generate-team-time-report.js: base hours and counted
    hours are added up by teammate, by issue and by report row. */
module TeamReport {
  import opened IssueHours
  import opened Options
  import opened Sequences

  datatype Issue = Issue(number: nat, lines: seq<Line>, assignees: seq<string>)

  /** A row of the issue table; `counted` is false for one that needs review. */
  datatype Row = Row(issue: nat, person: string, hours: real, counted: bool)

  /** A base-time entry: the user's name as written, and the hours. */
  datatype BaseEntry = BaseEntry(username: string, hours: real)

  /** `toLowerCase` and `normalizeUsername` of the host and the script. */
  datatype Host = Host(lower: string -> string, normalize: string -> string)

  /** A `Map` to numbers, with its insertion order. */
  datatype Ledger<K> = Ledger(order: seq<K>, amounts: map<K, real>)

  ghost predicate IsLedger<K(!new)>(l: Ledger<K>) {
    && (forall k :: k in l.order <==> k in l.amounts)
    && Distinct(l.order)
  }

  function Get<K>(l: Ledger<K>, k: K): real {
    if k in l.amounts then l.amounts[k] else 0.0
  }

  /** `set`: a new key comes last, a known one keeps its place. */
  function Put<K>(l: Ledger<K>, k: K, v: real): Ledger<K> {
    Ledger(if k in l.amounts then l.order else l.order + [k], l.amounts[k := v])
  }

  function SumAt<K>(order: seq<K>, m: map<K, real>): real {
    if order == [] then 0.0
    else
      var last := order[|order| - 1];
      SumAt(order[..|order| - 1], m) + if last in m then m[last] else 0.0
  }

  function Sum<K>(l: Ledger<K>): real {
    SumAt(l.order, l.amounts)
  }

  lemma {:induction false} SumElsewhere<K>(order: seq<K>, m: map<K, real>, k: K, v: real)
    requires k !in order
    ensures SumAt(order, m[k := v]) == SumAt(order, m)
  {
    if order != [] { SumElsewhere(order[..|order| - 1], m, k, v); }
  }

  lemma {:induction false} SumUpdated<K>(order: seq<K>, m: map<K, real>, k: K, v: real)
    requires k in order && Distinct(order)
    ensures SumAt(order, m[k := v]) == SumAt(order, m) - (if k in m then m[k] else 0.0) + v
  {
    var last := |order| - 1;
    if order[last] == k { SumElsewhere(order[..last], m, k, v); }
    else { SumUpdated(order[..last], m, k, v); }
  }

  /** Setting one amount changes the sum by as much. */
  lemma PutSum<K(!new)>(l: Ledger<K>, k: K, v: real)
    requires IsLedger(l)
    ensures IsLedger(Put(l, k, v)) && Sum(Put(l, k, v)) == Sum(l) - Get(l, k) + v
    ensures k in l.amounts ==> Put(l, k, v).order == l.order
  {
    if k in l.amounts { SumUpdated(l.order, l.amounts, k, v); }
    else {
      var order := l.order + [k];
      assert order[..|l.order|] == l.order;
      SumElsewhere(l.order, l.amounts, k, v);
    }
  }

  function CountedHours(rows: seq<Row>): real {
    if rows == [] then 0.0
    else CountedHours(rows[..|rows| - 1]) + if rows[|rows| - 1].counted then rows[|rows| - 1].hours else 0.0
  }

  // What the rows say of one person, and of one issue.

  predicate IsOf(row: Row, key: string, host: Host) {
    row.counted && host.lower(row.person) == key
  }

  function HoursOf(rows: seq<Row>, key: string, host: Host): real {
    if rows == [] then 0.0
    else HoursOf(rows[..|rows| - 1], key, host) + if IsOf(rows[|rows| - 1], key, host) then rows[|rows| - 1].hours else 0.0
  }

  predicate IsOn(row: Row, issue: nat) {
    row.counted && row.issue == issue
  }

  function HoursOn(rows: seq<Row>, issue: nat): real {
    if rows == [] then 0.0
    else HoursOn(rows[..|rows| - 1], issue) + if IsOn(rows[|rows| - 1], issue) then rows[|rows| - 1].hours else 0.0
  }

  lemma OneMoreRow(rows: seq<Row>, row: Row, key: string, issue: nat, host: Host)
    ensures HoursOf(rows + [row], key, host) == HoursOf(rows, key, host) + if IsOf(row, key, host) then row.hours else 0.0
    ensures HoursOn(rows + [row], issue) == HoursOn(rows, issue) + if IsOn(row, issue) then row.hours else 0.0
    ensures CountedHours(rows + [row]) == CountedHours(rows) + if row.counted then row.hours else 0.0
  {
    assert (rows + [row])[..|rows|] == rows;
  }

  lemma OneMoreForAll(rows: seq<Row>, row: Row, host: Host)
    ensures forall key :: HoursOf(rows + [row], key, host)
                       == HoursOf(rows, key, host) + if IsOf(row, key, host) then row.hours else 0.0
    ensures forall issue :: HoursOn(rows + [row], issue)
                         == HoursOn(rows, issue) + if IsOn(row, issue) then row.hours else 0.0
  {
    hide HoursOf, HoursOn, IsOf, IsOn;
    forall key ensures HoursOf(rows + [row], key, host)
                    == HoursOf(rows, key, host) + if IsOf(row, key, host) then row.hours else 0.0
    {
      OneMoreRow(rows, row, key, 0, host);
    }
    forall issue ensures HoursOn(rows + [row], issue) == HoursOn(rows, issue) + if IsOn(row, issue) then row.hours else 0.0
    {
      OneMoreRow(rows, row, "", issue, host);
    }
  }

  lemma {:induction false} CountedConcat(a: seq<Row>, b: seq<Row>)
    ensures CountedHours(a + b) == CountedHours(a) + CountedHours(b)
  {
    if b == [] { assert a + b == a; }
    else {
      assert (a + b)[..|a + b| - 1] == a + b[..|b| - 1];
      CountedConcat(a, b[..|b| - 1]);
    }
  }

  /** Adding hours to one amount of a ledger. */
  function Raised<K>(l: Ledger<K>, k: K, hours: real): Ledger<K> {
    Put(l, k, Get(l, k) + hours)
  }

  lemma RaisedSum<K(!new)>(l: Ledger<K>, k: K, hours: real)
    requires IsLedger(l)
    ensures IsLedger(Raised(l, k, hours)) && Sum(Raised(l, k, hours)) == Sum(l) + hours
  {
    hide IsLedger, Sum, Get, Put;
    PutSum(l, k, Get(l, k) + hours);
  }

  lemma RaisedOrder<K(!new)>(l: Ledger<K>, k: K, hours: real)
    requires IsLedger(l) && k in l.order
    ensures Raised(l, k, hours).order == l.order
  {
  }

  lemma KeysAre<K(!new)>(l: Ledger<K>, k: K)
    requires IsLedger(l)
    ensures k in l.order <==> k in l.amounts
  {
  }

  /** A key is there, with no hours if it is new. */
  function Added<K>(l: Ledger<K>, k: K): Ledger<K> {
    if k in l.amounts then l else Put(l, k, 0.0)
  }

  lemma SameKeys(
    base: Ledger<string>, implementation: Ledger<string>, byIssue: Ledger<nat>, rows: seq<Row>, key: string)
    requires Balanced(base, implementation, byIssue, rows)
    ensures IsLedger(implementation) && (key in base.amounts <==> key in implementation.amounts)
  {
    KeysAre(base, key);
    KeysAre(implementation, key);
  }

  lemma AddedHas<K>(l: Ledger<K>, k: K)
    ensures k in Added(l, k).amounts
  {
  }

  /** Being added changes no amount and no sum. */
  lemma AddedFacts<K(!new)>(l: Ledger<K>, k: K)
    requires IsLedger(l)
    ensures IsLedger(Added(l, k)) && Sum(Added(l, k)) == Sum(l)
    ensures forall other :: Get(Added(l, k), other) == Get(l, other)
  {
    hide Sum, IsLedger;
    if k !in l.amounts { NewKey(l, k); }
  }

  lemma NewKey<K(!new)>(l: Ledger<K>, k: K)
    requires IsLedger(l) && k !in l.amounts
    ensures IsLedger(Put(l, k, 0.0)) && Sum(Put(l, k, 0.0)) == Sum(l) && Put(l, k, 0.0).order == l.order + [k]
    ensures forall other :: Get(Put(l, k, 0.0), other) == Get(l, other)
  {
    hide Sum, IsLedger;
    PutSum(l, k, 0.0);
  }

  /** The amount of a key is set, whether or not it is new. */
  function Assigned<K>(l: Ledger<K>, k: K, v: real): Ledger<K> {
    Put(Added(l, k), k, v)
  }

  lemma AssignedSum<K(!new)>(l: Ledger<K>, k: K, v: real)
    requires IsLedger(l)
    ensures Sum(Assigned(l, k, v)) == Sum(l) - Get(l, k) + v
  {
    hide Sum, IsLedger, Get, Put, Added;
    AddedFacts(l, k);
    PutSum(Added(l, k), k, v);
  }

  lemma AssignedIsLedger<K(!new)>(l: Ledger<K>, k: K, v: real)
    requires IsLedger(l)
    ensures IsLedger(Assigned(l, k, v))
  {
    hide IsLedger, Sum, Get, Put, Added;
    AddedFacts(l, k);
    PutSum(Added(l, k), k, v);
  }

  lemma AssignedAmounts<K(!new)>(l: Ledger<K>, k: K, v: real)
    ensures forall other :: Get(Assigned(l, k, v), other) == if other == k then v else Get(l, other)
    ensures forall other :: other in Assigned(l, k, v).amounts <==> other in l.amounts || other == k
  {
  }

  /** The sums by teammate, by issue and by counted row agree. */
  ghost predicate Balanced(base: Ledger<string>, implementation: Ledger<string>, byIssue: Ledger<nat>, rows: seq<Row>) {
    && IsLedger(base) && IsLedger(implementation) && IsLedger(byIssue) && base.order == implementation.order
    && Sum(implementation) == Sum(byIssue) == CountedHours(rows)
  }

  /** Each teammate has the hours of the counted rows that name them, and each issue
      those of its own. */
  ghost predicate Credited(implementation: Ledger<string>, byIssue: Ledger<nat>, rows: seq<Row>, host: Host) {
    && (forall key :: Get(implementation, key) == HoursOf(rows, key, host))
    && (forall issue :: Get(byIssue, issue) == HoursOn(rows, issue))
  }

  lemma RaisedAmounts<K(!new)>(l: Ledger<K>, k: K, hours: real)
    ensures forall other :: Get(Raised(l, k, hours), other) == Get(l, other) + if other == k then hours else 0.0
  {
  }

  lemma RowCredits(implementation: Ledger<string>, byIssue: Ledger<nat>, rows: seq<Row>, row: Row, host: Host)
    requires Credited(implementation, byIssue, rows, host) && row.counted
    ensures Credited(
              Raised(implementation, host.lower(row.person), row.hours), Raised(byIssue, row.issue, row.hours), rows + [row],
              host)
  {
    RaisedAmounts(implementation, host.lower(row.person), row.hours);
    RaisedAmounts(byIssue, row.issue, row.hours);
    hide HoursOf, HoursOn, Get, Raised;
    OneMoreForAll(rows, row, host);
  }

  lemma ReviewCredits(implementation: Ledger<string>, byIssue: Ledger<nat>, rows: seq<Row>, row: Row, host: Host)
    requires Credited(implementation, byIssue, rows, host) && !row.counted
    ensures Credited(implementation, byIssue, rows + [row], host)
  {
    hide HoursOf, HoursOn, Get;
    OneMoreForAll(rows, row, host);
  }

  lemma NewcomerCredits(implementation: Ledger<string>, byIssue: Ledger<nat>, rows: seq<Row>, key: string, host: Host)
    requires Credited(implementation, byIssue, rows, host) && IsLedger(implementation) && key !in implementation.amounts
    ensures Credited(Put(implementation, key, 0.0), byIssue, rows, host)
  {
    NewKey(implementation, key);
    hide HoursOf, HoursOn, Get, Put;
  }

  /** Crediting a known teammate keeps them equal. */
  lemma CreditBalances(
    base: Ledger<string>, implementation: Ledger<string>, byIssue: Ledger<nat>, rows: seq<Row>, key: string, row: Row,
    host: Host)
    requires Balanced(base, implementation, byIssue, rows) && key in base.amounts && row.counted
    ensures Balanced(base, Raised(implementation, key, row.hours), Raised(byIssue, row.issue, row.hours), rows + [row])
  {
    hide IsLedger, Sum, CountedHours, Raised;
    KeysAre(base, key);
    RaisedSum(implementation, key, row.hours);
    RaisedOrder(implementation, key, row.hours);
    RaisedSum(byIssue, row.issue, row.hours);
    OneMoreRow(rows, row, key, row.issue, host);
  }

  /** So does a row that counts nothing, */
  lemma ReviewBalances(
    base: Ledger<string>, implementation: Ledger<string>, byIssue: Ledger<nat>, rows: seq<Row>, row: Row, host: Host)
    requires Balanced(base, implementation, byIssue, rows) && !row.counted
    ensures Balanced(base, implementation, byIssue, rows + [row])
  {
    hide IsLedger, Sum, CountedHours;
    OneMoreRow(rows, row, "", 0, host);
  }

  /** a new teammate, */
  lemma NewcomerBalances(
    base: Ledger<string>, implementation: Ledger<string>, byIssue: Ledger<nat>, rows: seq<Row>, key: string)
    requires Balanced(base, implementation, byIssue, rows) && key !in base.amounts
    ensures Balanced(Put(base, key, 0.0), Put(implementation, key, 0.0), byIssue, rows)
  {
    hide Sum, CountedHours, Put;
    KeysAre(base, key);
    KeysAre(implementation, key);
    hide IsLedger;
    NewKey(base, key);
    NewKey(implementation, key);
  }

  /** and a base figure for a known one. */
  lemma BaseBalances(
    base: Ledger<string>, implementation: Ledger<string>, byIssue: Ledger<nat>, rows: seq<Row>, key: string, hours: real)
    requires Balanced(base, implementation, byIssue, rows) && key in base.amounts
    ensures Balanced(Put(base, key, hours), implementation, byIssue, rows)
  {
    hide Sum, CountedHours, IsLedger, Put;
    PutSum(base, key, hours);
  }

  /** The maps of the report. `summaryByUser` is two ledgers with the same keys. */
  class Report {
    const host: Host
    var base: Ledger<string>
    var implementation: Ledger<string>
    var byIssue: Ledger<nat>
    var rows: seq<Row>

    ghost predicate Valid()
      reads this
    {
      Balanced(base, implementation, byIssue, rows) && Credited(implementation, byIssue, rows, host)
    }

    constructor (host: Host)
      ensures Valid() && this.host == host && base == Ledger([], map[]) && rows == []
    {
      this.host := host;
      base, implementation, byIssue, rows := Ledger([], map[]), Ledger([], map[]), Ledger([], map[]), [];
    }

    /** `createTeammate` */
    method CreateTeammate(username: string) returns (key: string)
      requires Valid()
      modifies this`base, this`implementation
      ensures Valid() && key == host.lower(username) && key in base.amounts
      ensures base == old(Added(base, key))
    {
      key := host.lower(username);
      hide Balanced, Credited, Put, IsLedger;
      AddedHas(base, key);
      SameKeys(base, implementation, byIssue, rows, key);
      if key !in base.amounts {
        NewcomerBalances(base, implementation, byIssue, rows, key);
        NewcomerCredits(implementation, byIssue, rows, key, host);
        base, implementation := Put(base, key, 0.0), Put(implementation, key, 0.0);
      }
    }

    /** `teammate.base_hours = entry.baseHours`, an assignment. */
    method SetBase(entry: BaseEntry)
      requires Valid()
      modifies this`base, this`implementation
      ensures Valid() && base == old(Assigned(base, host.lower(entry.username), entry.hours))
    {
      hide Sum, Get, Balanced, Credited, Added, Put;
      var key := CreateTeammate(entry.username);
      BaseBalances(base, implementation, byIssue, rows, key, entry.hours);
      base := Put(base, key, entry.hours);
    }

    /** A teammate for each of these users. */
    method AddTeammates(usernames: seq<string>)
      requires Valid()
      modifies this`base, this`implementation
      ensures Valid() && base == old(AllAdded(base, usernames, host))
    {
      hide Sum, Get, Balanced, Credited, Added;
      for i := 0 to |usernames|
        invariant Valid() && base == old(AllAdded(base, usernames[..i], host))
      {
        assert usernames[..i + 1][..i] == usernames[..i];
        var key := CreateTeammate(usernames[i]);
      }
      assert usernames[..|usernames|] == usernames;
    }

    method AddBase(entries: seq<BaseEntry>)
      requires Valid()
      modifies this`base, this`implementation
      ensures Valid() && base == old(AllAssigned(base, entries, host))
    {
      hide Sum, Get, Balanced, Credited, Assigned;
      for i := 0 to |entries|
        invariant Valid() && base == old(AllAssigned(base, entries[..i], host))
      {
        assert entries[..i + 1][..i] == entries[..i];
        SetBase(entries[i]);
      }
      assert entries[..|entries|] == entries;
    }

    /** One counted entry: its hours go to its teammate, to its issue and to a row. */
    method AddCounted(issue: nat, username: string, hours: real)
      requires Valid()
      modifies this
      ensures Valid() && rows == old(rows) + [CountedRow(issue, username, hours, host)]
      ensures base == old(Added(base, host.lower(host.normalize(username))))
    {
      hide Balanced, Credited, Added, Raised;
      var person := host.normalize(username);
      var key := CreateTeammate(person);
      Credit(key, CountedRow(issue, username, hours, host));
    }

    method Credit(key: string, row: Row)
      requires Valid() && key in base.amounts && key == host.lower(row.person) && row.counted
      modifies this`implementation, this`byIssue, this`rows
      ensures Valid() && rows == old(rows) + [row]
      ensures implementation == old(Raised(implementation, key, row.hours))
      ensures byIssue == old(Raised(byIssue, row.issue, row.hours))
    {
      hide Balanced, Credited, Raised;
      CreditBalances(base, implementation, byIssue, rows, key, row, host);
      RowCredits(implementation, byIssue, rows, row, host);
      implementation := Raised(implementation, key, row.hours);
      byIssue := Raised(byIssue, row.issue, row.hours);
      rows := rows + [row];
    }

    /** One entry that needs review: it is listed and added to nothing. */
    method AddReview(issue: nat, entry: Entry)
      requires Valid()
      modifies this`rows
      ensures Valid() && rows == old(rows) + [ReviewRow(issue, entry)]
    {
      hide Balanced, Credited;
      var row := ReviewRow(issue, entry);
      ReviewBalances(base, implementation, byIssue, rows, row, host);
      ReviewCredits(implementation, byIssue, rows, row, host);
      rows := rows + [row];
    }

    /** The loop body over the included issues. */
    method AddIssue(issue: Issue)
      requires Valid()
      modifies this
      ensures Valid() && rows == old(rows) + RowsOf(issue, host)
      ensures base == old(Enlisted(base, RowsOf(issue, host), host))
    {
      var counted, review, invalid, warnings := ParseIssueHours(issue.lines, issue.assignees, host.lower);
      ghost var (before, start) := (rows, base);
      hide Settled, Valid, Added, Enlisted;
      EnlistedNone(start, host);
      for i := 0 to |counted|
        invariant Valid() && rows == before + CountedRows(issue.number, counted[..i], host)
        invariant base == Enlisted(start, CountedRows(issue.number, counted[..i], host), host)
      {
        assert counted[..i + 1][..i] == counted[..i];
        EnlistedMore(start, CountedRows(issue.number, counted[..i], host), CountedRowOf(issue.number, counted[i], host), host);
        assert CountedRows(issue.number, counted[..i + 1], host)
            == CountedRows(issue.number, counted[..i], host) + [CountedRowOf(issue.number, counted[i], host)];
        AddCounted(issue.number, counted[i].username, counted[i].entry.hours);
      }
      assert counted[..|counted|] == counted;
      ghost var middle := rows;
      for i := 0 to |review|
        invariant Valid() && base == Enlisted(start, CountedRows(issue.number, counted, host), host)
        invariant rows == middle + ReviewRows(issue.number, review[..i])
      {
        assert review[..i + 1][..i] == review[..i];
        AddReview(issue.number, review[i]);
      }
      assert review[..|review|] == review;
      ReviewsEnlistNone(start, CountedRows(issue.number, counted, host), issue.number, review, host);
    }

    /** The loop over the included issues. */
    method AddIssues(issues: seq<Issue>)
      requires Valid()
      modifies this
      ensures Valid() && rows == old(rows) + RowsOfAll(issues, host)
      ensures base == old(Enlisted(base, RowsOfAll(issues, host), host))
    {
      hide Balanced, Credited, RowsOf, Enlisted;
      ghost var (before, start) := (rows, base);
      EnlistedNone(start, host);
      for i := 0 to |issues|
        invariant Valid() && rows == before + RowsOfAll(issues[..i], host)
        invariant base == Enlisted(start, RowsOfAll(issues[..i], host), host)
      {
        assert issues[..i + 1][..i] == issues[..i];
        EnlistedConcat(start, RowsOfAll(issues[..i], host), RowsOf(issues[i], host), host);
        AddIssue(issues[i]);
      }
      assert issues[..|issues|] == issues;
    }
  }

  // Who is in the report.

  /** A teammate for every person a counted row names. */
  function Enlisted(l: Ledger<string>, rows: seq<Row>, host: Host): Ledger<string> {
    if rows == [] then l
    else
      var (front, row) := (rows[..|rows| - 1], rows[|rows| - 1]);
      if row.counted then Added(Enlisted(l, front, host), host.lower(row.person)) else Enlisted(l, front, host)
  }

  lemma EnlistedNone(l: Ledger<string>, host: Host)
    ensures Enlisted(l, [], host) == l
  {
  }

  lemma EnlistedMore(l: Ledger<string>, rows: seq<Row>, row: Row, host: Host)
    ensures Enlisted(l, rows + [row], host)
         == if row.counted then Added(Enlisted(l, rows, host), host.lower(row.person)) else Enlisted(l, rows, host)
  {
    assert (rows + [row])[..|rows|] == rows;
  }

  lemma {:induction false} EnlistedConcat(l: Ledger<string>, a: seq<Row>, b: seq<Row>, host: Host)
    ensures Enlisted(l, a + b, host) == Enlisted(Enlisted(l, a, host), b, host)
    decreases |b|
  {
    hide Enlisted, Added;
    if b == [] {
      assert a + b == a;
      EnlistedNone(Enlisted(l, a, host), host);
    } else {
      var (front, row) := (b[..|b| - 1], b[|b| - 1]);
      assert b == front + [row] && a + b == (a + front) + [row];
      EnlistedConcat(l, a, front, host);
      EnlistedMore(l, a + front, row, host);
      EnlistedMore(Enlisted(l, a, host), front, row, host);
    }
  }

  lemma {:induction false} ReviewsEnlistNone(
    l: Ledger<string>, rows: seq<Row>, issue: nat, review: seq<Entry>, host: Host)
    ensures Enlisted(l, rows + ReviewRows(issue, review), host) == Enlisted(l, rows, host)
  {
    hide Enlisted;
    if review == [] {
      assert rows + ReviewRows(issue, review) == rows;
    } else {
      var (front, e) := (review[..|review| - 1], review[|review| - 1]);
      ReviewsEnlistNone(l, rows, issue, front, host);
      EnlistedMore(l, rows + ReviewRows(issue, front), ReviewRow(issue, e), host);
      assert rows + ReviewRows(issue, review) == rows + ReviewRows(issue, front) + [ReviewRow(issue, e)];
    }
  }

  /** A teammate for every one of these names. */
  function AllAdded(l: Ledger<string>, roster: seq<string>, host: Host): Ledger<string> {
    if roster == [] then l else Added(AllAdded(l, roster[..|roster| - 1], host), host.lower(roster[|roster| - 1]))
  }

  /** The base hours of every entry. */
  function AllAssigned(l: Ledger<string>, entries: seq<BaseEntry>, host: Host): Ledger<string> {
    if entries == [] then l
    else
      var e := entries[|entries| - 1];
      Assigned(AllAssigned(l, entries[..|entries| - 1], host), host.lower(e.username), e.hours)
  }

  function CountedRow(issue: nat, username: string, hours: real, host: Host): Row {
    Row(issue, host.normalize(username), hours, true)
  }

  function CountedRowOf(issue: nat, c: Counted, host: Host): Row {
    CountedRow(issue, c.username, c.entry.hours, host)
  }

  function ReviewRow(issue: nat, e: Entry): Row {
    Row(issue, e.person, e.hours, false)
  }

  function CountedRows(issue: nat, counted: seq<Counted>, host: Host): seq<Row> {
    seq(|counted|, i requires 0 <= i < |counted| => CountedRowOf(issue, counted[i], host))
  }

  function ReviewRows(issue: nat, review: seq<Entry>): seq<Row> {
    seq(|review|, i requires 0 <= i < |review| => ReviewRow(issue, review[i]))
  }

  /** The rows an issue gives. */
  function RowsOf(issue: Issue, host: Host): seq<Row> {
    var o := Settled(ValidEntries(issue.lines), issue.assignees, host.lower);
    CountedRows(issue.number, o.counted, host) + ReviewRows(issue.number, o.review)
  }

  /** The rows of an issue: one for each counted entry, with its normalized user, then one
      for each entry that awaits review, with the name that was written. */
  lemma RowsExactly(issue: Issue, host: Host)
    ensures var o := Settled(ValidEntries(issue.lines), issue.assignees, host.lower);
            var (rows, n) := (RowsOf(issue, host), |o.counted|);
            && |rows| == n + |o.review|
            && (forall i :: 0 <= i < n ==>
                  rows[i] == Row(issue.number, host.normalize(o.counted[i].username), o.counted[i].entry.hours, true))
            && forall i :: 0 <= i < |o.review| ==>
                 rows[n + i] == Row(issue.number, o.review[i].person, o.review[i].hours, false)
  {
    hide Settled, ValidEntries;
  }

  function RowsOfAll(issues: seq<Issue>, host: Host): seq<Row> {
    if issues == [] then [] else RowsOfAll(issues[..|issues| - 1], host) + RowsOf(issues[|issues| - 1], host)
  }

  function BaseHours(entries: seq<BaseEntry>): real {
    if entries == [] then 0.0 else BaseHours(entries[..|entries| - 1]) + entries[|entries| - 1].hours
  }

  /** `total_hours` of each teammate. */
  function Totals(base: Ledger<string>, implementation: Ledger<string>): Ledger<string> {
    Ledger(base.order, map k | k in base.amounts :: base.amounts[k] + Get(implementation, k))
  }

  lemma {:induction false} TotalsAddUp(order: seq<string>, base: Ledger<string>, implementation: Ledger<string>)
    requires forall k :: k in order ==> k in base.amounts && k in implementation.amounts
    ensures SumAt(order, Totals(base, implementation).amounts)
         == SumAt(order, base.amounts) + SumAt(order, implementation.amounts)
  {
    if order != [] { TotalsAddUp(order[..|order| - 1], base, implementation); }
  }

  /** The accounting of `buildReport`.  Each teammate's unrounded total is the base hours
      of their entry and the hours of the counted rows that name them; in sum these are
      the base hours plus the hours counted, row by row and issue by issue.  `visitors`
      are the authors, reviewers and commenters of the pull requests. */
  method BuildReport(
    roster: seq<string>, entries: seq<BaseEntry>, issues: seq<Issue>, visitors: seq<string>, host: Host)
    returns (report: Report, totals: Ledger<string>)
    requires AreKept(entries, host)
    ensures fresh(report) && report.Valid() && report.rows == RowsOfAll(issues, host)
    ensures forall key :: Get(totals, key) == BaseOf(entries, key, host) + HoursOf(report.rows, key, host)
    ensures forall key :: key in totals.amounts <==>
              HasName(roster, key, host) || HasEntry(entries, key, host) || HasRow(report.rows, key, host)
              || HasName(visitors, key, host)
    ensures forall key :: Get(report.base, key) == BaseOf(entries, key, host)
    ensures forall key :: Get(report.implementation, key) == HoursOf(report.rows, key, host)
    ensures forall issue :: Get(report.byIssue, issue) == HoursOn(report.rows, issue)
    ensures Sum(totals) == BaseHours(entries) + CountedHours(report.rows)
    ensures Sum(report.base) == BaseHours(entries) && Sum(report.implementation) == CountedHours(report.rows)
    ensures Sum(report.byIssue) == CountedHours(report.rows)
  {
    report := new Report(host);
    FinalBase(roster, entries, RowsOfAll(issues, host), visitors, host);
    hide Balanced, Credited, CountedHours, Enlisted, AllAdded, AllAssigned, RowsOfAll, Sum, Totals, Get, HoursOf, HoursOn;
    report.AddTeammates(roster);
    report.AddBase(entries);
    report.AddIssues(issues);
    assert report.rows == RowsOfAll(issues, host);
    report.AddTeammates(visitors);
    totals := Totals(report.base, report.implementation);
    TotalsOf(report.base, report.implementation, report.byIssue, report.rows);
    AllCredited(report.implementation, report.byIssue, report.rows, host);
  }

  lemma AllCredited(implementation: Ledger<string>, byIssue: Ledger<nat>, rows: seq<Row>, host: Host)
    requires Credited(implementation, byIssue, rows, host)
    ensures forall key :: Get(implementation, key) == HoursOf(rows, key, host)
    ensures forall issue :: Get(byIssue, issue) == HoursOn(rows, issue)
  {
  }

  /** The reader of the base times keeps one entry for each user. */
  ghost predicate AreKept(entries: seq<BaseEntry>, host: Host) {
    forall i, j :: 0 <= i < j < |entries| ==> host.lower(entries[i].username) != host.lower(entries[j].username)
  }

  ghost predicate HasName(names: seq<string>, key: string, host: Host) {
    exists i :: 0 <= i < |names| && host.lower(names[i]) == key
  }

  ghost predicate HasEntry(entries: seq<BaseEntry>, key: string, host: Host) {
    exists i :: 0 <= i < |entries| && host.lower(entries[i].username) == key
  }

  ghost predicate HasRow(rows: seq<Row>, key: string, host: Host) {
    exists i :: 0 <= i < |rows| && IsOf(rows[i], key, host)
  }

  /** The base hours that the entries give a user. */
  function BaseOf(entries: seq<BaseEntry>, key: string, host: Host): real {
    if entries == [] then 0.0
    else if host.lower(entries[|entries| - 1].username) == key then entries[|entries| - 1].hours
    else BaseOf(entries[..|entries| - 1], key, host)
  }

  /** Two ledgers with the same amounts and the same sum, the second with more keys. */
  ghost predicate Widens(l: Ledger<string>, wider: Ledger<string>) {
    IsLedger(wider) && Sum(wider) == Sum(l) && forall key :: Get(wider, key) == Get(l, key)
  }

  lemma AddedWidens(l: Ledger<string>, wider: Ledger<string>, key: string)
    requires Widens(l, wider)
    ensures Widens(l, Added(wider, key))
  {
    hide IsLedger, Sum, Get, Added;
    AddedFacts(wider, key);
  }

  lemma AddedKeys(l: Ledger<string>, key: string)
    ensures forall k :: k in Added(l, key).amounts <==> k in l.amounts || k == key
  {
  }

  lemma {:induction false} NamesAdded(l: Ledger<string>, names: seq<string>, host: Host)
    requires IsLedger(l)
    ensures Widens(l, AllAdded(l, names, host))
    ensures forall k :: k in AllAdded(l, names, host).amounts <==> k in l.amounts || HasName(names, k, host)
  {
    hide IsLedger, Sum, Get, Added;
    if names != [] {
      var (front, name) := (names[..|names| - 1], names[|names| - 1]);
      NamesAdded(l, front, host);
      AddedWidens(l, AllAdded(l, front, host), host.lower(name));
      AddedKeys(AllAdded(l, front, host), host.lower(name));
      hide Widens, AllAdded;
      forall k { HasNameSnoc(front, name, k, host); }
      assert names == front + [name];
    }
  }

  lemma HasNameSnoc(names: seq<string>, name: string, key: string, host: Host)
    ensures HasName(names + [name], key, host) <==> HasName(names, key, host) || host.lower(name) == key
  {
    var more := names + [name];
    assert more[|names|] == name;
    if i :| 0 <= i < |names| && host.lower(names[i]) == key { assert more[i] == names[i]; }
  }

  lemma {:induction false} RowsEnlisted(l: Ledger<string>, rows: seq<Row>, host: Host)
    requires IsLedger(l)
    ensures Widens(l, Enlisted(l, rows, host))
    ensures forall k :: k in Enlisted(l, rows, host).amounts <==> k in l.amounts || HasRow(rows, k, host)
  {
    hide IsLedger, Sum, Get, Added, IsOf, Enlisted;
    if rows == [] {
      EnlistedNone(l, host);
    } else {
      var (front, row) := (rows[..|rows| - 1], rows[|rows| - 1]);
      assert rows == front + [row];
      RowsEnlisted(l, front, host);
      EnlistedMore(l, front, row, host);
      AddedWidens(l, Enlisted(l, front, host), host.lower(row.person));
      AddedKeys(Enlisted(l, front, host), host.lower(row.person));
      hide Widens;
      forall k { HasRowSnoc(front, row, k, host); }
    }
  }

  lemma HasRowSnoc(rows: seq<Row>, row: Row, key: string, host: Host)
    ensures HasRow(rows + [row], key, host)
       <==> HasRow(rows, key, host) || (row.counted && host.lower(row.person) == key)
  {
    var more := rows + [row];
    assert more[|rows|] == row;
    if i :| 0 <= i < |rows| && IsOf(rows[i], key, host) { assert more[i] == rows[i]; }
  }

  /** The base figures of the report: the roster brings no hours and each entry its own,
      and nobody who joins later changes them. */
  lemma FinalBase(roster: seq<string>, entries: seq<BaseEntry>, rows: seq<Row>, visitors: seq<string>, host: Host)
    requires AreKept(entries, host)
    ensures var base := AllAdded(
                          Enlisted(AllAssigned(AllAdded(Ledger([], map[]), roster, host), entries, host), rows, host),
                          visitors, host);
            && Sum(base) == BaseHours(entries)
            && (forall key :: Get(base, key) == BaseOf(entries, key, host))
            && forall key :: key in base.amounts <==>
                 HasName(roster, key, host) || HasEntry(entries, key, host) || HasRow(rows, key, host)
                 || HasName(visitors, key, host)
  {
    var none := Ledger([], map[]);
    var listed := AllAdded(none, roster, host);
    var based := AllAssigned(listed, entries, host);
    NamesAdded(none, roster, host);
    assert NoAmounts(listed);
    EntriesAssigned(listed, entries, host);
    RowsEnlisted(based, rows, host);
    NamesAdded(Enlisted(based, rows, host), visitors, host);
    hide IsLedger, Sum, Get, AllAdded, AllAssigned, Enlisted, HasName, HasEntry, HasRow, BaseOf, BaseHours;
  }

  ghost predicate NoAmounts(l: Ledger<string>) {
    IsLedger(l) && Sum(l) == 0.0 && forall k :: Get(l, k) == 0.0
  }

  lemma {:induction false} EntriesAssigned(l: Ledger<string>, entries: seq<BaseEntry>, host: Host)
    requires NoAmounts(l) && AreKept(entries, host)
    ensures var all := AllAssigned(l, entries, host);
            && IsLedger(all) && Sum(all) == BaseHours(entries)
            && (forall k :: Get(all, k) == BaseOf(entries, k, host))
            && forall k :: k in all.amounts <==> k in l.amounts || HasEntry(entries, k, host)
  {
    hide IsLedger, Sum, Get, Assigned;
    if entries != [] {
      var (front, e) := (entries[..|entries| - 1], entries[|entries| - 1]);
      var key := host.lower(e.username);
      EntriesAssigned(l, front, host);
      assert entries == front + [e];
      var before := AllAssigned(l, front, host);
      NoEntryYet(front, key, host);
      AssignedIsLedger(before, key, e.hours);
      AssignedSum(before, key, e.hours);
      AssignedAmounts(before, key, e.hours);
      hide BaseHours, BaseOf, AllAssigned;
      forall k { HasEntrySnoc(front, e, k, host); }
    }
  }

  lemma {:induction false} NoEntryYet(entries: seq<BaseEntry>, key: string, host: Host)
    requires forall i :: 0 <= i < |entries| ==> host.lower(entries[i].username) != key
    ensures BaseOf(entries, key, host) == 0.0
  {
    if entries != [] { NoEntryYet(entries[..|entries| - 1], key, host); }
  }

  lemma HasEntrySnoc(entries: seq<BaseEntry>, e: BaseEntry, key: string, host: Host)
    ensures HasEntry(entries + [e], key, host) <==> HasEntry(entries, key, host) || host.lower(e.username) == key
  {
    var more := entries + [e];
    assert more[|entries|] == e;
    if i :| 0 <= i < |entries| && host.lower(entries[i].username) == key { assert more[i] == entries[i]; }
  }

  lemma TotalsOf(base: Ledger<string>, implementation: Ledger<string>, byIssue: Ledger<nat>, rows: seq<Row>)
    requires Balanced(base, implementation, byIssue, rows)
    ensures Sum(Totals(base, implementation)) == Sum(base) + Sum(implementation)
    ensures Sum(implementation) == Sum(byIssue) == CountedHours(rows)
    ensures forall key :: Get(Totals(base, implementation), key) == Get(base, key) + Get(implementation, key)
    ensures forall key :: key in Totals(base, implementation).amounts <==> key in base.amounts
  {
    hide CountedHours;
    TotalsAddUp(base.order, base, implementation);
    forall key { SameKeys(base, implementation, byIssue, rows, key); }
  }

  function ReportedHours(issues: seq<Issue>): real {
    if issues == [] then 0.0
    else ReportedHours(issues[..|issues| - 1]) + TotalHours(ValidEntries(issues[|issues| - 1].lines))
  }

  function ReviewedHours(rows: seq<Row>): real {
    if rows == [] then 0.0
    else ReviewedHours(rows[..|rows| - 1]) + if rows[|rows| - 1].counted then 0.0 else rows[|rows| - 1].hours
  }

  lemma {:induction false} ReviewedConcat(a: seq<Row>, b: seq<Row>)
    ensures ReviewedHours(a + b) == ReviewedHours(a) + ReviewedHours(b)
  {
    if b == [] { assert a + b == a; }
    else {
      assert (a + b)[..|a + b| - 1] == a + b[..|b| - 1];
      ReviewedConcat(a, b[..|b| - 1]);
    }
  }

  lemma {:induction false} CountedRowsHours(issue: nat, counted: seq<Counted>, host: Host)
    ensures CountedHours(CountedRows(issue, counted, host)) == TotalHours(EntriesOf(counted))
    ensures ReviewedHours(CountedRows(issue, counted, host)) == 0.0
  {
    if counted != [] {
      var front := counted[..|counted| - 1];
      CountedRowsHours(issue, front, host);
      assert CountedRows(issue, counted, host)[..|front|] == CountedRows(issue, front, host);
      assert EntriesOf(counted)[..|front|] == EntriesOf(front);
    }
  }

  lemma {:induction false} ReviewRowsHours(issue: nat, review: seq<Entry>)
    ensures ReviewedHours(ReviewRows(issue, review)) == TotalHours(review)
    ensures CountedHours(ReviewRows(issue, review)) == 0.0
  {
    if review != [] {
      var front := review[..|review| - 1];
      ReviewRowsHours(issue, front);
      assert ReviewRows(issue, review)[..|front|] == ReviewRows(issue, front);
    }
  }

  /** The rows of an issue carry exactly the hours its well-formed lines report. */
  lemma IssueHoursConserved(issue: Issue, host: Host)
    ensures CountedHours(RowsOf(issue, host)) + ReviewedHours(RowsOf(issue, host)) == TotalHours(ValidEntries(issue.lines))
  {
    var valid := ValidEntries(issue.lines);
    var o := Settled(valid, issue.assignees, host.lower);
    var (counted, review) := (CountedRows(issue.number, o.counted, host), ReviewRows(issue.number, o.review));
    EachLineLandsOnce(valid, issue.assignees, host.lower);
    hide Settled, ValidEntries;
    assert multiset(valid) == multiset(EntriesOf(o.counted) + o.review);
    SumPermuted(valid, EntriesOf(o.counted) + o.review, HoursIn);
    SumConcat(EntriesOf(o.counted), o.review, HoursIn);
    CountedRowsHours(issue.number, o.counted, host);
    ReviewRowsHours(issue.number, o.review);
    CountedConcat(counted, review);
    ReviewedConcat(counted, review);
  }

  /** End to end, hours are conserved: what the report counts and what it leaves to
      review add up to what all the issues report. */
  lemma {:induction false} HoursConserved(issues: seq<Issue>, host: Host)
    ensures CountedHours(RowsOfAll(issues, host)) + ReviewedHours(RowsOfAll(issues, host)) == ReportedHours(issues)
  {
    if issues != [] {
      var (front, last) := (issues[..|issues| - 1], issues[|issues| - 1]);
      HoursConserved(front, host);
      IssueHoursConserved(last, host);
      CountedConcat(RowsOfAll(front, host), RowsOf(last, host));
      ReviewedConcat(RowsOfAll(front, host), RowsOf(last, host));
    }
  }

  // From the lines to each person's figure.

  /** The hours of a counted entry, if they go to this person. */
  function Paid(c: Counted, key: string, host: Host): real {
    if host.lower(host.normalize(c.username)) == key then c.entry.hours else 0.0
  }

  function PaidTo(counted: seq<Counted>, key: string, host: Host): real {
    SumOf(counted, (c: Counted) => Paid(c, key, host))
  }

  /** What a valid line brings this person. */
  function LineHours(e: Entry, valid: seq<Entry>, assignees: seq<string>, key: string, host: Host): real {
    var who := CountedFor(valid, e, assignees, host.lower);
    if who.Some? then Paid(Counted(e, who.value), key, host) else 0.0
  }

  function LinesHours(es: seq<Entry>, valid: seq<Entry>, assignees: seq<string>, key: string, host: Host): real {
    SumOf(es, (e: Entry) => LineHours(e, valid, assignees, key, host))
  }

  /** The hours of all issues that are counted for this person, line by line. */
  function HoursFromLines(issues: seq<Issue>, key: string, host: Host): real {
    if issues == [] then 0.0
    else
      var last := issues[|issues| - 1];
      var valid := ValidEntries(last.lines);
      HoursFromLines(issues[..|issues| - 1], key, host) + LinesHours(valid, valid, last.assignees, key, host)
  }

  lemma {:induction false} CountedLinesPay(
    es: seq<Entry>, valid: seq<Entry>, assignees: seq<string>, key: string, host: Host)
    ensures PaidTo(CountedLines(es, valid, assignees, host.lower), key, host) == LinesHours(es, valid, assignees, key, host)
  {
    hide CountedFor, Paid, PaidTo, LinesHours;
    if es == [] {
      NothingPaid(valid, assignees, key, host);
    } else {
      var (front, e) := (es[..|es| - 1], es[|es| - 1]);
      assert es == front + [e];
      CountedLinesPay(front, valid, assignees, key, host);
      OneMoreLine(front, e, valid, assignees, key, host);
      var who := CountedFor(valid, e, assignees, host.lower);
      if who.Some? {
        OneMorePaid(CountedLines(front, valid, assignees, host.lower), Counted(e, who.value), key, host);
      }
    }
  }

  lemma NothingPaid(valid: seq<Entry>, assignees: seq<string>, key: string, host: Host)
    ensures PaidTo([], key, host) == LinesHours([], valid, assignees, key, host) == 0.0
  {
  }

  lemma OneMorePaid(counted: seq<Counted>, c: Counted, key: string, host: Host)
    ensures PaidTo(counted + [c], key, host) == PaidTo(counted, key, host) + Paid(c, key, host)
  {
    assert (counted + [c])[..|counted|] == counted;
  }

  lemma OneMoreLine(es: seq<Entry>, e: Entry, valid: seq<Entry>, assignees: seq<string>, key: string, host: Host)
    ensures LinesHours(es + [e], valid, assignees, key, host)
         == LinesHours(es, valid, assignees, key, host) + LineHours(e, valid, assignees, key, host)
  {
    hide LineHours;
    assert (es + [e])[..|es|] == es;
  }

  lemma {:induction false} RowsPay(issue: nat, counted: seq<Counted>, key: string, host: Host)
    ensures HoursOf(CountedRows(issue, counted, host), key, host) == PaidTo(counted, key, host)
  {
    if counted != [] {
      var front := counted[..|counted| - 1];
      RowsPay(issue, front, key, host);
      assert CountedRows(issue, counted, host)[..|front|] == CountedRows(issue, front, host);
    }
  }

  lemma {:induction false} ReviewsPayNobody(rows: seq<Row>, issue: nat, review: seq<Entry>, key: string, host: Host)
    ensures HoursOf(rows + ReviewRows(issue, review), key, host) == HoursOf(rows, key, host)
  {
    hide HoursOf;
    if review == [] {
      assert rows + ReviewRows(issue, review) == rows;
    } else {
      var (front, e) := (review[..|review| - 1], review[|review| - 1]);
      ReviewsPayNobody(rows, issue, front, key, host);
      OneMoreRow(rows + ReviewRows(issue, front), ReviewRow(issue, e), key, 0, host);
      assert rows + ReviewRows(issue, review) == rows + ReviewRows(issue, front) + [ReviewRow(issue, e)];
    }
  }

  lemma {:induction false} HoursOfConcat(a: seq<Row>, b: seq<Row>, key: string, host: Host)
    ensures HoursOf(a + b, key, host) == HoursOf(a, key, host) + HoursOf(b, key, host)
    decreases |b|
  {
    if b == [] { assert a + b == a; }
    else {
      assert (a + b)[..|a + b| - 1] == a + b[..|b| - 1];
      HoursOfConcat(a, b[..|b| - 1], key, host);
    }
  }

  lemma IssuePays(issue: Issue, key: string, host: Host)
    ensures var valid := ValidEntries(issue.lines);
            HoursOf(RowsOf(issue, host), key, host) == LinesHours(valid, valid, issue.assignees, key, host)
  {
    var valid := ValidEntries(issue.lines);
    var o := Settled(valid, issue.assignees, host.lower);
    hide Settled, ValidEntries, CountedLines, HoursOf, Paid, LineHours;
    CountedAreLines(issue.lines, issue.assignees, host.lower);
    ReviewsPayNobody(CountedRows(issue.number, o.counted, host), issue.number, o.review, key, host);
    RowsPay(issue.number, o.counted, key, host);
    SumPermuted(o.counted, CountedLines(valid, valid, issue.assignees, host.lower), (c: Counted) => Paid(c, key, host));
    CountedLinesPay(valid, valid, issue.assignees, key, host);
  }

  /** A person's implementation hours are those of exactly the lines that are counted
      for them: the ones that name them alone in a scope, and the sole unnamed ones of
      issues assigned to them alone. */
  lemma {:induction false} FiguresFromLines(issues: seq<Issue>, key: string, host: Host)
    ensures HoursOf(RowsOfAll(issues, host), key, host) == HoursFromLines(issues, key, host)
  {
    hide HoursOf, RowsOf, LinesHours, ValidEntries;
    if issues == [] {
      NoRowsNoHours(key, host);
    } else {
      var (front, last) := (issues[..|issues| - 1], issues[|issues| - 1]);
      FiguresFromLines(front, key, host);
      IssuePays(last, key, host);
      HoursOfConcat(RowsOfAll(front, host), RowsOf(last, host), key, host);
    }
  }

  lemma NoRowsNoHours(key: string, host: Host)
    ensures HoursOf([], key, host) == 0.0
  {
  }

  /** The hours counted in the issues of this number. */
  function HoursOfIssues(issues: seq<Issue>, number: nat, host: Host): real {
    if issues == [] then 0.0
    else
      var last := issues[|issues| - 1];
      HoursOfIssues(issues[..|issues| - 1], number, host)
      + if last.number == number then
          TotalHours(EntriesOf(Settled(ValidEntries(last.lines), last.assignees, host.lower).counted))
        else 0.0
  }

  lemma {:induction false} HoursOnConcat(a: seq<Row>, b: seq<Row>, number: nat)
    ensures HoursOn(a + b, number) == HoursOn(a, number) + HoursOn(b, number)
    decreases |b|
  {
    if b == [] { assert a + b == a; }
    else {
      assert (a + b)[..|a + b| - 1] == a + b[..|b| - 1];
      HoursOnConcat(a, b[..|b| - 1], number);
    }
  }

  lemma {:induction false} CountedRowsOn(issue: nat, counted: seq<Counted>, number: nat, host: Host)
    ensures HoursOn(CountedRows(issue, counted, host), number)
         == if issue == number then TotalHours(EntriesOf(counted)) else 0.0
  {
    if counted != [] {
      var front := counted[..|counted| - 1];
      CountedRowsOn(issue, front, number, host);
      assert CountedRows(issue, counted, host)[..|front|] == CountedRows(issue, front, host);
      assert EntriesOf(counted)[..|front|] == EntriesOf(front);
    }
  }

  lemma {:induction false} ReviewRowsOn(issue: nat, review: seq<Entry>, number: nat)
    ensures HoursOn(ReviewRows(issue, review), number) == 0.0
  {
    if review != [] {
      var front := review[..|review| - 1];
      ReviewRowsOn(issue, front, number);
      assert ReviewRows(issue, review)[..|front|] == ReviewRows(issue, front);
    }
  }

  lemma IssueRowsOn(issue: Issue, number: nat, host: Host)
    ensures HoursOn(RowsOf(issue, host), number)
         == if issue.number == number then
              TotalHours(EntriesOf(Settled(ValidEntries(issue.lines), issue.assignees, host.lower).counted))
            else 0.0
  {
    var o := Settled(ValidEntries(issue.lines), issue.assignees, host.lower);
    hide Settled, ValidEntries, HoursOn;
    HoursOnConcat(CountedRows(issue.number, o.counted, host), ReviewRows(issue.number, o.review), number);
    CountedRowsOn(issue.number, o.counted, number, host);
    ReviewRowsOn(issue.number, o.review, number);
  }

  /** An issue's figure is the hours counted in the issues of its number. */
  lemma {:induction false} IssueFiguresFromLines(issues: seq<Issue>, number: nat, host: Host)
    ensures HoursOn(RowsOfAll(issues, host), number) == HoursOfIssues(issues, number, host)
  {
    hide RowsOf, Settled, ValidEntries, TotalHours;
    if issues != [] {
      var (front, last) := (issues[..|issues| - 1], issues[|issues| - 1]);
      IssueFiguresFromLines(front, number, host);
      IssueRowsOn(last, number, host);
      HoursOnConcat(RowsOfAll(front, host), RowsOf(last, host), number);
      hide HoursOn;
    }
  }
}
