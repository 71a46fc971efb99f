/** `readBaseTime` of eduai-summer-2026/scripts/read-base-time.js, from the parsed
    lines on: which rows become entries and which become warnings. */
module BaseTime {
  import opened Csv
  import opened Options
  import opened Text

  datatype Entry = Entry(username: string, baseHours: real, notes: string)

  datatype Reason = InvalidHeader | MissingUsername | InvalidHours | Duplicate

  /** A warning; the header's has line number 1. */
  datatype Warning = Warning(reason: Reason, lineNumber: nat)

  /** `Number` and `toLowerCase` of the host, as parameters: the number a cell
      stands for, when that is finite. */
  datatype Host = Host(number: string -> Option<real>, lower: string -> string)

  datatype Columns = Columns(username: nat, hours: nat, notes: Option<nat>)

  function Cell(row: seq<string>, column: nat): string {
    if column < |row| then row[column] else ""
  }

  function WithoutAt(name: string): string {
    if name != "" && name[0] == '@' then name[1..] else name
  }

  function Username(row: seq<string>, columns: Columns): string {
    WithoutAt(Trim(Cell(row, columns.username)))
  }

  function Hours(row: seq<string>, columns: Columns, host: Host): Option<real> {
    if columns.hours >= |row| then None else host.number(row[columns.hours])
  }

  predicate IsUsable(row: seq<string>, columns: Columns, host: Host) {
    && Username(row, columns) != ""
    && Hours(row, columns, host).Some? && Hours(row, columns, host).value >= 0.0
  }

  function Key(row: seq<string>, columns: Columns, host: Host): string {
    host.lower(Username(row, columns))
  }

  function EntryOf(row: seq<string>, columns: Columns, host: Host): Entry
    requires IsUsable(row, columns, host)
  {
    Entry(Username(row, columns), Hours(row, columns, host).value,
          if columns.notes.None? then "" else Trim(Cell(row, columns.notes.value)))
  }

  predicate HasKey(row: seq<string>, key: string, columns: Columns, host: Host) {
    IsUsable(row, columns, host) && Key(row, columns, host) == key
  }

  /** The entry of the first usable row with this key. */
  ghost function EntryFor(rows: seq<seq<string>>, key: string, columns: Columns, host: Host): Option<Entry> {
    if rows == [] then None
    else
      var (done, last) := (rows[..|rows| - 1], rows[|rows| - 1]);
      if EntryFor(done, key, columns, host).Some? then EntryFor(done, key, columns, host)
      else if HasKey(last, key, columns, host) then Some(EntryOf(last, columns, host))
      else None
  }

  /** Why a row is not an entry, given the rows before it. */
  ghost function Rejected(done: seq<seq<string>>, row: seq<string>, columns: Columns, host: Host): Option<Reason> {
    if Username(row, columns) == "" then Some(MissingUsername)
    else if !IsUsable(row, columns, host) then Some(InvalidHours)
    else if EntryFor(done, Key(row, columns, host), columns, host).Some? then Some(Duplicate)
    else None
  }

  /** One warning for each rejected row, with the number of its line among the lines
      that are not blank. */
  ghost function WarningsOf(rows: seq<seq<string>>, columns: Columns, host: Host): seq<Warning> {
    if rows == [] then []
    else
      var last := |rows| - 1;
      var reason := Rejected(rows[..last], rows[last], columns, host);
      WarningsOf(rows[..last], columns, host) + if reason.None? then [] else [Warning(reason.value, last + 2)]
  }

  /** The accounting of `rows`: for each key the first usable row is the entry, and
      every other row leaves one warning; none is lost. */
  ghost predicate Accounts(
    rows: seq<seq<string>>, columns: Columns, host: Host, entries: map<string, Entry>, warnings: seq<Warning>)
  {
    && (forall key :: key in entries <==> EntryFor(rows, key, columns, host).Some?)
    && (forall key :: key in entries ==> Some(entries[key]) == EntryFor(rows, key, columns, host))
    && warnings == WarningsOf(rows, columns, host)
    && |entries| + |warnings| == |rows|
  }

  lemma AccountsStep(
    done: seq<seq<string>>, row: seq<string>, columns: Columns, host: Host, entries: map<string, Entry>,
    warnings: seq<Warning>)
    requires Accounts(done, columns, host, entries, warnings)
    ensures var key := Key(row, columns, host);
            if IsUsable(row, columns, host) && key !in entries then
              Accounts(done + [row], columns, host, entries[key := EntryOf(row, columns, host)], warnings)
            else
              var reason := if Username(row, columns) == "" then MissingUsername
                            else if !IsUsable(row, columns, host) then InvalidHours else Duplicate;
              Accounts(done + [row], columns, host, entries, warnings + [Warning(reason, |done| + 2)])
  {
    hide EntryFor, WarningsOf, Username, Hours, Key, EntryOf;
    forall key { EntryForSnoc(done, row, key, columns, host); }
    WarningsSnoc(done, row, columns, host);
  }

  lemma EntryForSnoc(done: seq<seq<string>>, row: seq<string>, key: string, columns: Columns, host: Host)
    ensures EntryFor(done + [row], key, columns, host)
         == if EntryFor(done, key, columns, host).Some? then EntryFor(done, key, columns, host)
            else if HasKey(row, key, columns, host) then Some(EntryOf(row, columns, host))
            else None
  {
    hide HasKey, EntryOf;
    assert (done + [row])[..|done|] == done;
  }

  lemma WarningsSnoc(done: seq<seq<string>>, row: seq<string>, columns: Columns, host: Host)
    ensures var reason := Rejected(done, row, columns, host);
            WarningsOf(done + [row], columns, host) ==
            WarningsOf(done, columns, host) + if reason.None? then [] else [Warning(reason.value, |done| + 2)]
  {
    hide Rejected;
    assert (done + [row])[..|done|] == done;
  }

  /** `EntryFor`, said of the rows: it is the entry of the usable row with that key
      that no usable row with that key comes before. */
  lemma {:induction false} EntryForIsFirst(rows: seq<seq<string>>, key: string, columns: Columns, host: Host)
    ensures EntryFor(rows, key, columns, host).None? <==>
              forall j :: 0 <= j < |rows| ==> !HasKey(rows[j], key, columns, host)
    ensures forall k :: 0 <= k < |rows| && HasKey(rows[k], key, columns, host)
              && (forall j :: 0 <= j < k ==> !HasKey(rows[j], key, columns, host))
              ==> EntryFor(rows, key, columns, host) == Some(EntryOf(rows[k], columns, host))
    decreases |rows|
  {
    hide HasKey, EntryOf;
    if rows != [] {
      var (done, last) := (rows[..|rows| - 1], rows[|rows| - 1]);
      EntryForIsFirst(done, key, columns, host);
      assert rows == done + [last];
      EntryForSnoc(done, last, key, columns, host);
    }
  }

  /** The loop over the data rows. */
  method ReadRows(rows: seq<seq<string>>, columns: Columns, host: Host)
    returns (entries: map<string, Entry>, warnings: seq<Warning>)
    ensures Accounts(rows, columns, host, entries, warnings)
  {
    entries, warnings := map[], [];
    assert Accounts(rows[..0], columns, host, entries, warnings);
    hide Accounts, Username, Hours, EntryOf;
    for offset := 0 to |rows|
      invariant Accounts(rows[..offset], columns, host, entries, warnings)
    {
      AccountsStep(rows[..offset], rows[offset], columns, host, entries, warnings);
      assert rows[..offset + 1] == rows[..offset] + [rows[offset]];
      var row, lineNumber := rows[offset], offset + 2;
      var username := Username(row, columns);
      if username == "" {
        warnings := warnings + [Warning(MissingUsername, lineNumber)];
        continue;
      }
      var baseHours := Hours(row, columns, host);
      if baseHours.None? || baseHours.value < 0.0 {
        warnings := warnings + [Warning(InvalidHours, lineNumber)];
        continue;
      }
      var key := host.lower(username);
      if key in entries {
        warnings := warnings + [Warning(Duplicate, lineNumber)];
        continue;
      }
      entries := entries[key := EntryOf(row, columns, host)];
    }
    assert rows[..|rows|] == rows;
  }

  function IndexOf(headers: seq<string>, name: string): Option<nat> {
    if headers == [] then None
    else if headers[0] == name then Some(0)
    else if IndexOf(headers[1..], name).None? then None
    else Some(1 + IndexOf(headers[1..], name).value)
  }

  function LowerAll(cells: seq<string>, host: Host): seq<string> {
    seq(|cells|, i requires 0 <= i < |cells| => host.lower(cells[i]))
  }

  /** The columns the header names, if both required ones are there. */
  function ColumnsOf(header: seq<string>, host: Host): Option<Columns> {
    var headers := LowerAll(header, host);
    var (username, hours) := (IndexOf(headers, "github_username"), IndexOf(headers, "base_hours"));
    if username.None? || hours.None? then None
    else Some(Columns(username.value, hours.value, IndexOf(headers, "notes")))
  }

  function Parsed(lines: seq<string>): (rows: seq<seq<string>>)
    ensures |rows| == |lines|
  {
    seq(|lines|, i requires 0 <= i < |lines| => TrimAll(SeedFields(lines[i], "", false)))
  }

  /** `readBaseTime`, on the lines of the file.  The user column is the first header cell
      that reads `github_username`, and so on; a file without one of the first two is
      refused, and of any other each entry is described by the cells of its row. */
  method ReadBaseTime(file: seq<string>, host: Host) returns (entries: map<string, Entry>, warnings: seq<Warning>)
    ensures NonBlank(file) == [] ==> entries == map[] && warnings == []
    ensures NonBlank(file) != [] ==>
      var columns := ColumnsOf(Parsed(NonBlank(file))[0], host);
      if columns.None? then entries == map[] && warnings == [Warning(InvalidHeader, 1)]
      else Accounts(Parsed(NonBlank(file))[1..], columns.value, host, entries, warnings)
    ensures NonBlank(file) != [] ==>
      IsReading(LowerAll(Parsed(NonBlank(file))[0], host), Parsed(NonBlank(file))[1..], host, entries, warnings)
  {
    hide ColumnsOf, IsReading, Accounts, NonBlank, Parsed;
    var lines := KeptLines(file);
    if lines == [] { return map[], []; }
    var rows := ParsedLines(lines);
    var columns := ColumnsOf(rows[0], host);
    if columns.None? {
      RefusedIsReading(rows[0], rows[1..], host);
      return map[], [Warning(InvalidHeader, 1)];
    }
    entries, warnings := ReadRows(rows[1..], columns.value, host);
    AcceptedIsReading(rows[0], rows[1..], host, entries, warnings);
  }

  method ParsedLines(lines: seq<string>) returns (rows: seq<seq<string>>)
    ensures rows == Parsed(lines)
  {
    rows := [];
    for i := 0 to |lines|
      invariant rows == Parsed(lines[..i])
    {
      var row := ParseBaseTimeLine(lines[i]);
      rows := rows + [row];
    }
    assert lines[..|lines|] == lines;
  }

  /** The filter over the lines. */
  method KeptLines(lines: seq<string>) returns (kept: seq<string>)
    ensures kept == NonBlank(lines)
  {
    kept := [];
    NoneLeft(lines);
    hide Trim, NonBlank;
    for i := 0 to |lines|
      invariant kept + NonBlank(lines[i..]) == NonBlank(lines)
    {
      NextLine(lines, i);
      if Trim(lines[i]) != "" {
        assert kept + ([lines[i]] + NonBlank(lines[i + 1..])) == kept + [lines[i]] + NonBlank(lines[i + 1..]);
        kept := kept + [lines[i]];
      }
    }
  }

  lemma NextLine(lines: seq<string>, i: nat)
    requires i < |lines|
    ensures var rest := NonBlank(lines[i + 1..]);
            NonBlank(lines[i..]) == if Trim(lines[i]) == "" then rest else [lines[i]] + rest
  {
    assert lines[i..][0] == lines[i] && lines[i..][1..] == lines[i + 1..];
  }

  lemma NoneLeft(lines: seq<string>)
    ensures lines[0..] == lines && NonBlank(lines[|lines|..]) == []
  {
  }

  // The header and the rows, cell by cell.

  ghost predicate IsColumn(header: seq<string>, i: nat, name: string) {
    i < |header| && header[i] == name && forall j :: 0 <= j < i ==> header[j] != name
  }

  ghost predicate IsAbsent(header: seq<string>, name: string) {
    forall j :: 0 <= j < |header| ==> header[j] != name
  }

  ghost predicate IsNotes(header: seq<string>, n: Option<nat>) {
    if n.None? then IsAbsent(header, "notes") else IsColumn(header, n.value, "notes")
  }

  /** What is read from the rows under a header, cell by cell. */
  ghost predicate IsReading(
    header: seq<string>, rows: seq<seq<string>>, host: Host, entries: map<string, Entry>, warnings: seq<Warning>)
  {
    if IsAbsent(header, "github_username") || IsAbsent(header, "base_hours") then
      entries == map[] && warnings == [Warning(InvalidHeader, 1)]
    else
      forall u, h, n | IsColumn(header, u, "github_username") && IsColumn(header, h, "base_hours") && IsNotes(header, n) ::
        AreRead(rows, u, h, n, host, entries, warnings)
  }

  ghost predicate AreRead(
    rows: seq<seq<string>>, u: nat, h: nat, n: Option<nat>, host: Host, entries: map<string, Entry>,
    warnings: seq<Warning>)
  {
    && (forall key, e :: key in entries && entries[key] == e <==> IsFirstEntry(rows, u, h, n, host, key, e))
    && forall reason, line: nat :: Warning(reason, line) in warnings <==>
         line >= 2 && IsRejected(rows, line - 2, u, h, n, host, reason)
  }

  lemma RefusedIsReading(cells: seq<string>, rows: seq<seq<string>>, host: Host)
    requires ColumnsOf(cells, host).None?
    ensures IsReading(LowerAll(cells, host), rows, host, map[], [Warning(InvalidHeader, 1)])
  {
    HeaderExactly(cells, host);
    hide ColumnsOf, IsAbsent, IsColumn, AreRead;
  }

  lemma AcceptedIsReading(
    cells: seq<string>, rows: seq<seq<string>>, host: Host, entries: map<string, Entry>, warnings: seq<Warning>)
    requires ColumnsOf(cells, host).Some? && Accounts(rows, ColumnsOf(cells, host).value, host, entries, warnings)
    ensures IsReading(LowerAll(cells, host), rows, host, entries, warnings)
  {
    hide ColumnsOf, IsAbsent, IsColumn, IsNotes, AreRead, Accounts, LowerAll;
    var (header, columns) := (LowerAll(cells, host), ColumnsOf(cells, host));
    HeaderExactly(cells, host);
    AccountsBySyntax(rows, columns.value, host, entries, warnings);
    forall u, h, n | IsColumn(header, u, "github_username") && IsColumn(header, h, "base_hours") && IsNotes(header, n)
      ensures AreRead(rows, u, h, n, host, entries, warnings)
    {
      assert columns == Some(Columns(u, h, n));
    }
  }

  lemma {:induction false} IndexExactly(header: seq<string>, name: string)
    ensures IndexOf(header, name).None? <==> IsAbsent(header, name)
    ensures forall i: nat :: IndexOf(header, name) == Some(i) <==> IsColumn(header, i, name)
  {
    if header != [] && header[0] != name {
      var rest := header[1..];
      IndexExactly(rest, name);
      assert forall j :: 0 < j < |header| ==> header[j] == rest[j - 1];
      forall i: nat ensures IsColumn(header, i, name) <==> i > 0 && IsColumn(rest, i - 1, name) {
        if i > 0 && IsColumn(header, i, name) {
          assert forall j :: 0 <= j < i - 1 ==> rest[j] == header[j + 1];
        }
      }
    }
  }

  lemma HeaderExactly(cells: seq<string>, host: Host)
    ensures var (header, columns) := (LowerAll(cells, host), ColumnsOf(cells, host));
            && (columns.None? <==> IsAbsent(header, "github_username") || IsAbsent(header, "base_hours"))
            && forall u, h, n | IsColumn(header, u, "github_username") && IsColumn(header, h, "base_hours")
                                && IsNotes(header, n) :: columns == Some(Columns(u, h, n))
  {
    var header := LowerAll(cells, host);
    IndexExactly(header, "github_username");
    IndexExactly(header, "base_hours");
    IndexExactly(header, "notes");
    hide IndexOf, IsColumn, IsAbsent, LowerAll;
  }

  /** The user a row names: what its cell holds, with or without an `@` before it. */
  ghost predicate IsUser(row: seq<string>, u: nat, who: string) {
    && u < |row| && who != ""
    && (Trim(row[u]) == "@" + who || (Trim(row[u]) == who && who[0] != '@'))
  }

  ghost predicate AreHours(row: seq<string>, h: nat, host: Host, hours: real) {
    h < |row| && host.number(row[h]) == Some(hours) && hours >= 0.0
  }

  /** The entry that a row would be, by its cells. */
  ghost predicate IsEntry(row: seq<string>, u: nat, h: nat, n: Option<nat>, host: Host, e: Entry) {
    && IsUser(row, u, e.username) && AreHours(row, h, host, e.baseHours)
    && e.notes == if n.Some? && n.value < |row| then Trim(row[n.value]) else ""
  }

  ghost predicate IsKeyed(row: seq<string>, u: nat, h: nat, n: Option<nat>, host: Host, key: string) {
    exists e :: IsEntry(row, u, h, n, host, e) && host.lower(e.username) == key
  }

  /** The first row with this key, and its entry. */
  ghost predicate IsFirstEntry(
    rows: seq<seq<string>>, u: nat, h: nat, n: Option<nat>, host: Host, key: string, e: Entry)
  {
    host.lower(e.username) == key &&
    exists k :: 0 <= k < |rows| && IsEntry(rows[k], u, h, n, host, e)
                && forall j :: 0 <= j < k ==> !IsKeyed(rows[j], u, h, n, host, key)
  }

  /** Why row `k` is no entry. */
  ghost predicate IsRejected(
    rows: seq<seq<string>>, k: int, u: nat, h: nat, n: Option<nat>, host: Host, reason: Reason)
  {
    0 <= k < |rows| &&
    match reason
    case InvalidHeader => false
    case MissingUsername => forall who :: !IsUser(rows[k], u, who)
    case InvalidHours => (exists who :: IsUser(rows[k], u, who)) && forall hours :: !AreHours(rows[k], h, host, hours)
    case Duplicate =>
      exists e :: IsEntry(rows[k], u, h, n, host, e)
                  && exists j :: 0 <= j < k && IsKeyed(rows[j], u, h, n, host, host.lower(e.username))
  }

  lemma UserExactly(row: seq<string>, columns: Columns, who: string)
    ensures IsUser(row, columns.username, who) <==> who != "" && Username(row, columns) == who
  {
    EmptyTrims();
    hide Trim;
    if columns.username < |row| {
      var cell := Trim(row[columns.username]);
      if cell != "" && cell[0] == '@' {
        assert cell == "@" + cell[1..];
        assert ("@" + who)[1..] == who;
      }
      if who != "" { assert ("@" + who)[0] == '@' && ("@" + who)[1..] == who; }
    }
  }

  lemma HoursExactly(row: seq<string>, columns: Columns, host: Host, hours: real)
    ensures AreHours(row, columns.hours, host, hours) <==> Hours(row, columns, host) == Some(hours) && hours >= 0.0
  {
  }

  lemma EntryExactly(row: seq<string>, columns: Columns, host: Host, e: Entry)
    ensures IsEntry(row, columns.username, columns.hours, columns.notes, host, e) <==>
              IsUsable(row, columns, host) && EntryOf(row, columns, host) == e
  {
    UserExactly(row, columns, e.username);
    HoursExactly(row, columns, host, e.baseHours);
    EmptyTrims();
    hide Trim, IsUser, AreHours, Username, Hours;
  }

  lemma KeyedExactly(row: seq<string>, columns: Columns, host: Host, key: string)
    ensures IsKeyed(row, columns.username, columns.hours, columns.notes, host, key) <==> HasKey(row, key, columns, host)
  {
    forall e { EntryExactly(row, columns, host, e); }
    hide IsEntry, Username, Hours;
    if HasKey(row, key, columns, host) {
      assert IsEntry(row, columns.username, columns.hours, columns.notes, host, EntryOf(row, columns, host));
    }
  }

  lemma FirstEntryExactly(rows: seq<seq<string>>, columns: Columns, host: Host, key: string, e: Entry)
    ensures IsFirstEntry(rows, columns.username, columns.hours, columns.notes, host, key, e) <==>
              EntryFor(rows, key, columns, host) == Some(e)
  {
    var (u, h, n) := (columns.username, columns.hours, columns.notes);
    EntryForIsFirst(rows, key, columns, host);
    forall k | 0 <= k < |rows| ensures IsEntry(rows[k], u, h, n, host, e) && host.lower(e.username) == key <==>
                                       HasKey(rows[k], key, columns, host) && EntryOf(rows[k], columns, host) == e
    {
      EntryExactly(rows[k], columns, host, e);
    }
    forall j | 0 <= j < |rows| ensures IsKeyed(rows[j], u, h, n, host, key) <==> HasKey(rows[j], key, columns, host) {
      KeyedExactly(rows[j], columns, host, key);
    }
    hide IsEntry, IsKeyed, HasKey, EntryOf, EntryFor;
    if EntryFor(rows, key, columns, host) == Some(e) {
      var k := FirstKeyed(rows, key, columns, host);
      assert IsEntry(rows[k], u, h, n, host, e);
    }
  }

  lemma FirstKeyed(rows: seq<seq<string>>, key: string, columns: Columns, host: Host) returns (k: nat)
    requires exists j :: 0 <= j < |rows| && HasKey(rows[j], key, columns, host)
    ensures k < |rows| && HasKey(rows[k], key, columns, host)
    ensures forall j :: 0 <= j < k ==> !HasKey(rows[j], key, columns, host)
  {
    hide HasKey;
    k := 0;
    while !HasKey(rows[k], key, columns, host)
      invariant k < |rows| && exists j :: k <= j < |rows| && HasKey(rows[j], key, columns, host)
      invariant forall j :: 0 <= j < k ==> !HasKey(rows[j], key, columns, host)
      decreases |rows| - k
    {
      k := k + 1;
    }
  }

  lemma RejectedExactly(rows: seq<seq<string>>, k: nat, columns: Columns, host: Host, reason: Reason)
    requires k < |rows|
    ensures IsRejected(rows, k, columns.username, columns.hours, columns.notes, host, reason) <==>
              Rejected(rows[..k], rows[k], columns, host) == Some(reason)
  {
    var (u, h, n, row) := (columns.username, columns.hours, columns.notes, rows[k]);
    var (user, hours, key) := (Username(row, columns), Hours(row, columns, host), Key(row, columns, host));
    forall who { UserExactly(row, columns, who); }
    forall x { HoursExactly(row, columns, host, x); }
    forall e { EntryExactly(row, columns, host, e); }
    forall j | 0 <= j < k { KeyedExactly(rows[j], columns, host, key); }
    EntryForIsFirst(rows[..k], key, columns, host);
    hide IsUser, AreHours, IsEntry, IsKeyed, HasKey, EntryFor, Username, Hours;
    if user != "" { assert IsUser(row, u, user); }
    if hours.Some? && hours.value >= 0.0 { assert AreHours(row, h, host, hours.value); }
    if IsUsable(row, columns, host) {
      assert IsEntry(row, u, h, n, host, EntryOf(row, columns, host));
      if j :| 0 <= j < k && IsKeyed(rows[j], u, h, n, host, key) { assert HasKey(rows[..k][j], key, columns, host); }
      if j :| 0 <= j < k && HasKey(rows[..k][j], key, columns, host) { assert IsKeyed(rows[j], u, h, n, host, key); }
    }
  }

  lemma {:induction false} WarningsExactly(rows: seq<seq<string>>, columns: Columns, host: Host, reason: Reason, line: nat)
    ensures Warning(reason, line) in WarningsOf(rows, columns, host) <==>
              2 <= line < |rows| + 2 && Rejected(rows[..line - 2], rows[line - 2], columns, host) == Some(reason)
  {
    hide Rejected;
    if rows != [] {
      var (front, last) := (rows[..|rows| - 1], |rows| - 1);
      WarningsExactly(front, columns, host, reason, line);
      assert rows == front + [rows[last]];
      WarningsSnoc(front, rows[last], columns, host);
      if 2 <= line < |front| + 2 { assert front[..line - 2] == rows[..line - 2]; }
      hide WarningsOf;
    }
  }

  /** The accounting of the rows, cell by cell. */
  lemma AccountsBySyntax(
    rows: seq<seq<string>>, columns: Columns, host: Host, entries: map<string, Entry>, warnings: seq<Warning>)
    requires Accounts(rows, columns, host, entries, warnings)
    ensures AreRead(rows, columns.username, columns.hours, columns.notes, host, entries, warnings)
  {
    var (u, h, n) := (columns.username, columns.hours, columns.notes);
    hide EntryFor, WarningsOf, Rejected, IsFirstEntry;
    forall key, e ensures key in entries && entries[key] == e <==> IsFirstEntry(rows, u, h, n, host, key, e) {
      FirstEntryExactly(rows, columns, host, key, e);
    }
    forall reason, line: nat
      ensures Warning(reason, line) in warnings <==> line >= 2 && IsRejected(rows, line - 2, u, h, n, host, reason)
    {
      WarningsExactly(rows, columns, host, reason, line);
      if 2 <= line < |rows| + 2 { RejectedExactly(rows, line - 2, columns, host, reason); }
    }
  }

  /** The lines that are kept for reading. */
  function NonBlank(lines: seq<string>): seq<string> {
    if lines == [] then [] else (if Trim(lines[0]) == "" then [] else [lines[0]]) + NonBlank(lines[1..])
  }

  /** Where the kept line `k` stands in the file. */
  function Place(lines: seq<string>, k: nat): nat
    requires k < |NonBlank(lines)|
  {
    if Trim(lines[0]) == "" then 1 + Place(lines[1..], k)
    else if k == 0 then 0
    else 1 + Place(lines[1..], k - 1)
  }

  /** The number a warning gives is the line's number in the file if and only if no
      blank line comes before it; otherwise it is too small. */
  lemma {:induction false} NumberedExactly(lines: seq<string>, k: nat)
    requires k < |NonBlank(lines)|
    ensures k <= Place(lines, k) < |lines| && lines[Place(lines, k)] == NonBlank(lines)[k]
    ensures Place(lines, k) == k <==> forall i :: 0 <= i < Place(lines, k) ==> Trim(lines[i]) != ""
    decreases |lines|
  {
    hide Trim;
    var (p, rest) := (Place(lines, k), lines[1..]);
    if Trim(lines[0]) == "" {
      NumberedExactly(rest, k);
    } else if k > 0 {
      NumberedExactly(rest, k - 1);
      assert forall i :: 0 < i < p ==> lines[i] == rest[i - 1];
      assert forall i :: 0 <= i < p - 1 ==> rest[i] == lines[i + 1];
    }
  }

  /** A file of three lines: its third line lacks a user, and the warning says line 2. */
  lemma BlankLineMisnumbers(host: Host)
    ensures var lines := ["github_username,base_hours", "", ",5"];
            && Place(lines, 1) == 2
            && WarningsOf(Parsed(NonBlank(lines))[1..], Columns(0, 1, None), host) == [Warning(MissingUsername, 2)]
  {
    var lines := ["github_username,base_hours", "", ",5"];
    NotBlank(lines[0]);
    NotBlank(lines[2]);
    assert NonBlank(lines[1..][1..]) == [lines[2]] && NonBlank(lines[1..]) == [lines[2]];
    hide Trim;
    var row := TrimAll(SeedFields(",5", "", false));
    assert Parsed(NonBlank(lines))[1..] == [row];
    assert row[0] == "" by { EmptyTrims(); }
    assert Username(row, Columns(0, 1, None)) == "" by { EmptyTrims(); }
    assert [row][..0] == [];
  }

  lemma NotBlank(line: string)
    requires line != "" && !IsSpace(line[0])
    ensures Trim(line) != ""
  {
    TrimEndKeeps(line);
  }

  lemma {:induction false} TrimEndKeeps(line: string)
    requires line != "" && !IsSpace(line[0])
    ensures TrimEnd(line) != ""
  {
    if IsSpace(line[|line| - 1]) { TrimEndKeeps(line[..|line| - 1]); }
  }

  lemma EmptyTrims()
    ensures Trim("") == ""
  {
  }

  /** Every line that is not blank is kept. */
  lemma {:induction false} KeptExactly(lines: seq<string>, i: nat) returns (k: nat)
    requires i < |lines| && Trim(lines[i]) != ""
    ensures k < |NonBlank(lines)| && Place(lines, k) == i
    decreases i
  {
    hide Trim;
    if i == 0 {
      k := 0;
    } else {
      k := KeptExactly(lines[1..], i - 1);
      if Trim(lines[0]) != "" { k := k + 1; }
    }
  }
}
