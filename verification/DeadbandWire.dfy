/**
 The deadband table as lines (crates/servitor/src/deadband.rs): one line per entry, sorted by
 subject, with decimal numbers and dashes for a baseline not yet set. Reading the lines back gives
 the same declarations and baselines, so a restart cannot hand a denizen a fresh interval.
 */
module DeadbandWire {
  import opened Wrappers
  import opened Segments
  import opened Deadband
  import StableSort

  // ---------- Decimal numbers ----------

  function Digit(d: nat): (c: char)
    requires d < 10
    ensures '0' <= c <= '9'
  {
    '0' + d as char
  }

  function Decimal(n: nat): (r: string)
    ensures r != "" && forall i :: 0 <= i < |r| ==> '0' <= r[i] <= '9'
  {
    if n < 10 then [Digit(n)] else Decimal(n / 10) + [Digit(n % 10)]
  }

  function Magnitude(n: int): nat {
    if n < 0 then -n else n
  }

  function Signed(n: int): string {
    if n < 0 then "-" + Decimal(Magnitude(n)) else Decimal(n)
  }

  /** The number a text of digits spells. */
  function Value(s: string): Option<nat> {
    if s == "" then Some(0)
    else
      var front, last := Value(s[..|s| - 1]), s[|s| - 1];
      if front.None? || !('0' <= last <= '9') then None else Some(10 * front.value + (last - '0') as nat)
  }

  function ParseDigits(s: string, max: nat): Option<nat> {
    var v := Value(s);
    if s == "" || v.None? || v.value > max then None else v
  }

  function ParseU64(s: string): Option<U64> {
    ParseDigits(if s != "" && s[0] == '+' then s[1..] else s, MAX_U64)
  }

  function ParseI64(s: string): Option<I64> {
    if s != "" && s[0] == '-' then
      var v := ParseDigits(s[1..], MAX_I64 + 1);
      if v.None? then None else Some(-(v.value as int))
    else
      var v := ParseDigits(if s != "" && s[0] == '+' then s[1..] else s, MAX_I64);
      if v.None? then None else Some(v.value)
  }

  lemma {:induction false} DecimalValue(n: nat)
    ensures Value(Decimal(n)) == Some(n)
  {
    var s := Decimal(n);
    if n < 10 {
      assert s[..|s| - 1] == "";
    } else {
      DecimalValue(n / 10);
      assert s[..|s| - 1] == Decimal(n / 10);
    }
  }

  lemma NumbersRoundTrip(u: U64, i: I64)
    ensures ParseU64(Decimal(u)) == Some(u) && ParseI64(Signed(i)) == Some(i)
  {
    DecimalValue(u);
    DecimalValue(Magnitude(i));
    if i < 0 {
      assert Signed(i)[1..] == Decimal(Magnitude(i));
    }
  }

  // ---------- One line ----------

  /** How subjects are spelled. */
  datatype Naming = Naming(show: Subject -> string, read: string -> Option<Subject>)

  /** Every subject reads back, and its spelling is a non-empty word of hexadecimal digits. */
  ghost predicate Lawful(names: Naming) {
    && (forall s: Subject :: names.read(names.show(s)) == Some(s))
    && (forall s: Subject :: names.show(s) != "" && HexDigits(names.show(s)))
  }

  predicate HexDigits(s: string) {
    forall i :: 0 <= i < |s| ==> '0' <= s[i] <= '9' || 'a' <= s[i] <= 'f'
  }

  const DASH := "-"

  function Fields(names: Naming, e: Entry): seq<string> {
    [names.show(e.subject), Decimal(e.band.minimumChange), Decimal(e.band.minimumIntervalMs),
     if e.accepted.Some? then Signed(e.accepted.value.output) else DASH,
     if e.accepted.Some? then Decimal(e.accepted.value.atMs) else DASH]
  }

  function Line(names: Naming, e: Entry): string {
    Join(Fields(names, e), ' ')
  }

  /** The baseline columns: both dashes or two numbers; `None` for anything else. */
  function ParseBaseline(output: string, atMs: string): Option<Option<Actuation>> {
    if output == DASH && atMs == DASH then Some(None)
    else if output == DASH || atMs == DASH then None
    else
      var o, t := ParseI64(output), ParseU64(atMs);
      if o.None? || t.None? then None else Some(Some(Actuation(o.value, t.value)))
  }

  function ParseLine(names: Naming, line: string): Option<Entry> {
    var parts := Split(line, ' ');
    if |parts| != 5 then None
    else
      var subject, change, interval := names.read(parts[0]), ParseU64(parts[1]), ParseU64(parts[2]);
      if subject.None? || change.None? || interval.None? then None
      else
        var band, accepted := Declare(change.value, interval.value), ParseBaseline(parts[3], parts[4]);
        if band.None? || accepted.None? then None else Some(Entry(subject.value, band.value, accepted.value))
  }

  lemma DecimalHasNo(n: nat, c: char)
    requires c < '0'
    ensures c !in Decimal(n)
  {
  }

  lemma FieldsSplit(names: Naming, e: Entry)
    requires Lawful(names)
    ensures Split(Line(names, e), ' ') == Fields(names, e)
  {
    DecimalHasNo(e.band.minimumChange, ' ');
    DecimalHasNo(e.band.minimumIntervalMs, ' ');
    assert HexDigits(names.show(e.subject));
    assert ' ' !in names.show(e.subject);
    if e.accepted.Some? {
      DecimalHasNo(e.accepted.value.atMs, ' ');
      var o := e.accepted.value.output;
      DecimalHasNo(Magnitude(o), ' ');
    }
    SplitJoin(Fields(names, e), ' ');
  }

  lemma BaselineRoundTrip(a: Actuation)
    ensures ParseBaseline(Signed(a.output), Decimal(a.atMs)) == Some(Some(a))
  {
    NumbersRoundTrip(a.atMs, a.output);
    assert Decimal(a.atMs)[0] != '-';
    assert ParseI64(DASH) == None by { assert DASH[1..] == ""; }
  }

  /** The line as it is written: subject, minimum change, minimum interval, and the baseline or two dashes. */
  lemma LineForm(names: Naming, e: Entry)
    ensures Line(names, e)
            == names.show(e.subject) + " " + Decimal(e.band.minimumChange) + " " + Decimal(e.band.minimumIntervalMs)
               + if e.accepted.Some?
                 then " " + Signed(e.accepted.value.output) + " " + Decimal(e.accepted.value.atMs)
                 else " - -"
  {
    var fields := Fields(names, e);
    JoinFive(fields[0], fields[1], fields[2], fields[3], fields[4]);
    assert fields == [fields[0], fields[1], fields[2], fields[3], fields[4]];
  }

  lemma JoinFive(a: string, b: string, c: string, d: string, e: string)
    ensures Join([a, b, c, d, e], ' ') == a + " " + b + " " + c + (" " + d + " " + e)
  {
    assert [a, b, c, d, e][1..] == [b, c, d, e] && [b, c, d, e][1..] == [c, d, e] && [c, d, e][1..] == [d, e];
    assert [d, e][1..] == [e];
    assert Join([d, e], ' ') == d + " " + e;
    assert Join([c, d, e], ' ') == c + " " + (d + " " + e);
    assert Join([b, c, d, e], ' ') == b + " " + (c + " " + (d + " " + e));
  }

  lemma LineRoundTrip(names: Naming, e: Entry)
    requires Lawful(names)
    ensures ParseLine(names, Line(names, e)) == Some(e)
  {
    FieldsSplit(names, e);
    NumbersRoundTrip(e.band.minimumChange, 0);
    NumbersRoundTrip(e.band.minimumIntervalMs, 0);
    assert names.read(names.show(e.subject)) == Some(e.subject);
    if e.accepted.Some? { BaselineRoundTrip(e.accepted.value); }
  }

  // ---------- The whole table ----------

  /** White space as `char::is_whitespace` has it. */
  predicate Space(c: char) {
    var n := c as int;
    || 9 <= n <= 13 || n == 32 || n == 0x85 || n == 0xA0 || n == 0x1680 || 0x2000 <= n <= 0x200A
    || n == 0x2028 || n == 0x2029 || n == 0x202F || n == 0x205F || n == 0x3000
  }

  predicate Blank(line: string) {
    forall i :: 0 <= i < |line| ==> Space(line[i])
  }

  function ToWireLines(names: Naming, entries: seq<Entry>): seq<string> {
    var sorted := SortEntries(entries);
    seq(|sorted|, i requires 0 <= i < |sorted| => Line(names, sorted[i]))
  }

  /** The table after reading more lines; `None` once any line is malformed or repeats a subject. */
  function Load(names: Naming, lines: seq<string>, table: seq<Entry>): Option<seq<Entry>> {
    if lines == [] then Some(table)
    else if Blank(lines[0]) then Load(names, lines[1..], table)
    else
      var e := ParseLine(names, lines[0]);
      if e.None? || Lookup(table, e.value.subject).Some? then None
      else Load(names, lines[1..], table + [e.value])
  }

  method FromWireLines(names: Naming, lines: seq<string>) returns (r: Option<seq<Entry>>)
    ensures r == Load(names, lines, [])
    ensures r.Some? ==> OnePerSubject(r.value)
  {
    var table: seq<Entry> := [];
    for i := 0 to |lines|
      invariant Load(names, lines, []) == Load(names, lines[i..], table)
      invariant OnePerSubject(table)
    {
      assert lines[i..][0] == lines[i] && lines[i..][1..] == lines[i + 1..];
      if !Blank(lines[i]) {
        var e := ParseLine(names, lines[i]);
        if e.None? {
          return None;
        }
        if Lookup(table, e.value.subject).Some? {
          return None;
        }
        NotFound(table, e.value.subject);
        table := table + [e.value];
      }
    }
    assert lines[|lines|..] == [];
    r := Some(table);
  }

  /** One malformed line fails the whole load, wherever it stands. */
  lemma {:induction false} MalformedLineFailsAll(names: Naming, lines: seq<string>, table: seq<Entry>, i: nat)
    requires i < |lines| && !Blank(lines[i]) && ParseLine(names, lines[i]).None?
    ensures Load(names, lines, table).None?
  {
    if i > 0 {
      var next := if Blank(lines[0]) || ParseLine(names, lines[0]).None? then table
          else table + [ParseLine(names, lines[0]).value];
      MalformedLineFailsAll(names, lines[1..], next, i - 1);
    }
  }

  lemma NotFound(table: seq<Entry>, subject: Subject)
    ensures Lookup(table, subject).None? <==> forall i :: 0 <= i < |table| ==> table[i].subject != subject
  {
  }

  lemma LineNotBlank(names: Naming, e: Entry)
    requires Lawful(names)
    ensures !Blank(Line(names, e))
  {
    var name := names.show(e.subject);
    assert HexDigits(name) && name != "";
    assert Line(names, e)[0] == name[0];
  }

  function LinesFrom(names: Naming, sorted: seq<Entry>, i: nat): seq<string>
    requires i <= |sorted|
  {
    seq(|sorted| - i, k requires 0 <= k < |sorted| - i => Line(names, sorted[i + k]))
  }

  lemma {:induction false} LoadWritten(names: Naming, sorted: seq<Entry>, i: nat)
    requires Lawful(names) && OnePerSubject(sorted) && i <= |sorted|
    ensures Load(names, LinesFrom(names, sorted, i), sorted[..i]) == Some(sorted)
    decreases |sorted| - i
  {
    var lines := LinesFrom(names, sorted, i);
    if i == |sorted| {
      assert sorted[..i] == sorted;
    } else {
      var e := sorted[i];
      assert lines[0] == Line(names, e);
      LineNotBlank(names, e);
      LineRoundTrip(names, e);
      NotFound(sorted[..i], e.subject);
      assert lines[1..] == LinesFrom(names, sorted, i + 1);
      assert sorted[..i] + [e] == sorted[..i + 1];
      LoadWritten(names, sorted, i + 1);
    }
  }

  /**
   Writing the table and reading it back is the `Restart` step of the runs in `Deadband`: every
   declaration and every baseline returns, so the rate bound proved there spans restarts.
   */
  lemma RestartIsRoundTrip(names: Naming, entries: seq<Entry>)
    requires Lawful(names) && OnePerSubject(entries)
    ensures Load(names, ToWireLines(names, entries), []) == Some(After(entries, Restart))
    ensures multiset(After(entries, Restart)) == multiset(entries)
            && StableSort.InOrder(BY_SUBJECT, After(entries, Restart))
  {
    var sorted := SortEntries(entries);
    SortEntriesSorts(entries);
    SortEntriesKeeps(entries);
    LoadWritten(names, sorted, 0);
    assert sorted[..0] == [];
    assert ToWireLines(names, entries) == LinesFrom(names, sorted, 0);
  }
}
