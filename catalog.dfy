/** The row loop of the catalog sync: every data row of the events sheet is
    folded into the event table, matching events by title.

    Rows arrive already split into fields (the CSV reader is not modelled).
    The first row is the header.  A row with fewer than six fields is skipped;
    otherwise field 1 is the title and field 3 the description, each stripped
    of surrounding white space and replaced by a default when blank.  An
    event with that title has its description overwritten; if there is none,
    a new event is added.  Field 5 (a date) is parsed and never used, so it
    does not appear here. */
module CatalogSync {
  import opened Schema

  const MinFields: nat := 6
  const DefaultTitle: string := "No title"
  const DefaultDescription: string := "No description"

  /** The characters Python's `str.strip()` removes (`str.isspace`). */
  predicate IsPythonSpace(c: char) {
    || '\t' <= c <= '\r'
    || '\U{1C}' <= c <= ' '
    || c == '\U{85}' || c == '\U{A0}' || c == '\U{1680}'
    || '\U{2000}' <= c <= '\U{200A}'
    || c == '\U{2028}' || c == '\U{2029}' || c == '\U{202F}' || c == '\U{205F}' || c == '\U{3000}'
  }

  /** Neither the first nor the last character is white space. */
  predicate Trimmed(s: string) {
    s != [] ==> !IsPythonSpace(s[0]) && !IsPythonSpace(s[|s| - 1])
  }

  /** Drops the white space at the front. */
  function TrimStart(s: string): (r: string)
    ensures |r| <= |s|
  {
    if s != [] && IsPythonSpace(s[0]) then TrimStart(s[1..]) else s
  }

  /** Drops the white space at the back. */
  function TrimEnd(s: string): (r: string)
    ensures |r| <= |s|
  {
    if s != [] && IsPythonSpace(s[|s| - 1]) then TrimEnd(s[..|s| - 1]) else s
  }

  /** What is left is a suffix; what was dropped is white space; what is
      left does not start with white space. */
  lemma {:induction false} TrimStartMeaning(s: string)
    ensures TrimStart(s) == s[|s| - |TrimStart(s)|..]
    ensures forall i :: 0 <= i < |s| - |TrimStart(s)| ==> IsPythonSpace(s[i])
    ensures TrimStart(s) != [] ==> !IsPythonSpace(TrimStart(s)[0])
    decreases |s|
  {
    if s != [] && IsPythonSpace(s[0]) {
      var r := TrimStart(s[1..]);
      TrimStartMeaning(s[1..]);
      assert s[1..][|s| - 1 - |r|..] == s[|s| - |r|..];
      forall i | 0 < i < |s| - |r|
        ensures IsPythonSpace(s[i])
      {
        assert s[i] == s[1..][i - 1];
      }
    }
  }

  /** What is left is a prefix; what was dropped is white space; what is
      left does not end with white space. */
  lemma {:induction false} TrimEndMeaning(s: string)
    ensures TrimEnd(s) == s[..|TrimEnd(s)|]
    ensures forall i :: |TrimEnd(s)| <= i < |s| ==> IsPythonSpace(s[i])
    ensures TrimEnd(s) != [] ==> !IsPythonSpace(TrimEnd(s)[|TrimEnd(s)| - 1])
    decreases |s|
  {
    if s != [] && IsPythonSpace(s[|s| - 1]) {
      var r := TrimEnd(s[..|s| - 1]);
      TrimEndMeaning(s[..|s| - 1]);
      assert s[..|s| - 1][..|r|] == s[..|r|];
      forall i | |r| <= i < |s| - 1
        ensures IsPythonSpace(s[i])
      {
        assert s[i] == s[..|s| - 1][i];
      }
    }
  }

  /** How many white-space characters `str.strip()` removes at the front */
  function LeadingSpace(s: string): (n: nat)
    ensures n <= |s|
  {
    |s| - |TrimStart(s)|
  }

  /** `str.strip()` */
  function Strip(s: string): (r: string)
    ensures LeadingSpace(s) + |r| <= |s|
  {
    TrimEnd(TrimStart(s))
  }

  /** `str.strip()` returns `s` with the white space at both ends removed,
      and nothing else. */
  lemma StripMeaning(s: string)
    ensures Trimmed(Strip(s))
    ensures Strip(s) == s[LeadingSpace(s)..LeadingSpace(s) + |Strip(s)|]
    ensures forall i :: 0 <= i < LeadingSpace(s) ==> IsPythonSpace(s[i])
    ensures forall i :: LeadingSpace(s) + |Strip(s)| <= i < |s| ==> IsPythonSpace(s[i])
  {
    var t := TrimStart(s);
    var r := TrimEnd(t);
    TrimStartMeaning(s);
    TrimEndMeaning(t);
    assert r != [] ==> r[0] == t[0];
    InnerSlice(s, |s| - |t|, t, r);
  }

  /** `r`, a prefix of the suffix `t` of `s` followed in `t` by white space
      only, is a slice of `s` followed in `s` by the same white space. */
  lemma InnerSlice(s: string, lead: nat, t: string, r: string)
    requires lead <= |s| && t == s[lead..]
    requires |r| <= |t| && r == t[..|r|]
    requires forall i :: |r| <= i < |t| ==> IsPythonSpace(t[i])
    ensures r == s[lead..lead + |r|]
    ensures forall i :: lead + |r| <= i < |s| ==> IsPythonSpace(s[i])
  {
    forall i | lead + |r| <= i < |s|
      ensures IsPythonSpace(s[i])
    {
      assert s[i] == t[i - lead];
    }
  }

  /** Python's `value or default` on a string */
  function OrDefault(value: string, default: string): string {
    if value == "" then default else value
  }

  /** The event a data row describes, or None for a row that is too short. */
  function ParseRow(row: seq<string>): (r: Option<Event>)
    ensures r.None? <==> |row| < MinFields
  {
    if |row| < MinFields then None
    else Some(Event(OrDefault(Strip(row[1]), DefaultTitle), OrDefault(Strip(row[3]), DefaultDescription)))
  }

  /** The title is field 1 stripped, the description field 3 stripped, each
      replaced by its default when nothing is left; so neither is empty and
      neither starts or ends with white space. */
  lemma ParseRowMeaning(row: seq<string>)
    requires |row| >= MinFields
    ensures ParseRow(row).Some?
    ensures Strip(row[1]) != "" ==> ParseRow(row).value.title == Strip(row[1])
    ensures Strip(row[1]) == "" ==> ParseRow(row).value.title == DefaultTitle
    ensures Strip(row[3]) != "" ==> ParseRow(row).value.description == Strip(row[3])
    ensures Strip(row[3]) == "" ==> ParseRow(row).value.description == DefaultDescription
    ensures ParseRow(row).value.title != "" && ParseRow(row).value.description != ""
    ensures Trimmed(ParseRow(row).value.title) && Trimmed(ParseRow(row).value.description)
  {
    StripMeaning(row[1]);
    StripMeaning(row[3]);
    DefaultsTrimmed();
  }

  lemma DefaultsTrimmed()
    ensures Trimmed(DefaultTitle) && Trimmed(DefaultDescription)
  {
    assert DefaultTitle[0] == 'N' && DefaultTitle[|DefaultTitle| - 1] == 'e';
    assert DefaultDescription[0] == 'N' && DefaultDescription[|DefaultDescription| - 1] == 'n';
  }

  ghost predicate HasTitle(events: seq<Event>, title: string) {
    exists i :: 0 <= i < |events| && events[i].title == title
  }

  /** `k` is the lowest id whose event is titled `title`. */
  ghost predicate FirstTitled(events: seq<Event>, title: string, k: nat) {
    && k < |events| && events[k].title == title
    && forall j :: 0 <= j < k ==> events[j].title != title
  }

  /** No event is removed and no existing title changes. */
  ghost predicate KeepsTitles(before: seq<Event>, after: seq<Event>) {
    && |before| <= |after|
    && forall i :: 0 <= i < |before| ==> after[i].title == before[i].title
  }

  /** Every event added after `before` has a title no other event has. */
  ghost predicate AddsOnlyNewTitles(before: seq<Event>, after: seq<Event>) {
    forall i, j :: 0 <= i < j < |after| && |before| <= j ==> after[i].title != after[j].title
  }

  /** `Event.query.filter_by(title=title).first()` */
  function TitleIndex(events: seq<Event>, title: string): Option<nat> {
    FirstWhere(events, (e: Event) => e.title == title)
  }

  /** The lookup by title, then either the update of the found event's
      description or the insertion of a new event. */
  function Upsert(events: seq<Event>, ev: Event): seq<Event> {
    match TitleIndex(events, ev.title)
    case Some(k) => events[k := events[k].(description := ev.description)]
    case None => events + [ev]
  }

  /** A title already present only has the description of its first event
      replaced; a new title is appended; either way no title is lost or
      duplicated. */
  lemma UpsertMeaning(events: seq<Event>, ev: Event)
    ensures !HasTitle(events, ev.title) ==> Upsert(events, ev) == events + [ev]
    ensures HasTitle(events, ev.title) ==>
      exists k: nat :: FirstTitled(events, ev.title, k) &&
        Upsert(events, ev) == events[k := events[k].(description := ev.description)]
    ensures KeepsTitles(events, Upsert(events, ev)) && AddsOnlyNewTitles(events, Upsert(events, ev))
    ensures HasTitle(Upsert(events, ev), ev.title)
  {
    var r := Upsert(events, ev);
    match TitleIndex(events, ev.title)
    case Some(k) =>
      assert FirstTitled(events, ev.title, k);
      assert r[k].title == ev.title;
    case None =>
      assert r[|events|].title == ev.title;
  }

  /** Upserting the same event again changes nothing: the second lookup
      finds the event the first one updated or added, and its description
      is already the new one. */
  lemma UpsertIdempotent(events: seq<Event>, ev: Event)
    ensures Upsert(Upsert(events, ev), ev) == Upsert(events, ev)
  {
    var r := Upsert(events, ev);
    var k := match TitleIndex(events, ev.title) case Some(k) => k case None => |events|;
    assert k < |r| && r[k].title == ev.title && r[k].description == ev.description;
    assert forall j :: 0 <= j < k ==> r[j].title == events[j].title;
    var again := TitleIndex(r, ev.title);
    assert again == Some(k);
    assert r[k := r[k].(description := ev.description)] == r;
  }

  /** One pass of the loop body */
  function ApplyRow(events: seq<Event>, row: seq<string>): seq<Event> {
    match ParseRow(row)
    case None => events
    case Some(ev) => Upsert(events, ev)
  }

  /** A short row changes nothing; any row keeps every title and adds only
      new ones. */
  lemma ApplyRowMeaning(events: seq<Event>, row: seq<string>)
    ensures |row| < MinFields ==> ApplyRow(events, row) == events
    ensures KeepsTitles(events, ApplyRow(events, row)) && AddsOnlyNewTitles(events, ApplyRow(events, row))
  {
    if ParseRow(row).Some? {
      UpsertMeaning(events, ParseRow(row).value);
    }
  }

  /** A row applied twice in a row has the effect of applying it once. */
  lemma ApplyRowIdempotent(events: seq<Event>, row: seq<string>)
    ensures ApplyRow(ApplyRow(events, row), row) == ApplyRow(events, row)
  {
    if ParseRow(row).Some? {
      UpsertIdempotent(events, ParseRow(row).value);
    }
  }

  /** Syncing two batches of rows is syncing their concatenation. */
  lemma {:induction false} SyncRowsAppend(events: seq<Event>, a: seq<seq<string>>, b: seq<seq<string>>)
    ensures SyncRows(events, a + b) == SyncRows(SyncRows(events, a), b)
    decreases |a|
  {
    if a == [] {
      assert a + b == b;
    } else {
      assert (a + b)[0] == a[0] && (a + b)[1..] == a[1..] + b;
      SyncRowsAppend(ApplyRow(events, a[0]), a[1..], b);
    }
  }

  /** The loop over the data rows, in order */
  function SyncRows(events: seq<Event>, rows: seq<seq<string>>): seq<Event>
    decreases |rows|
  {
    if rows == [] then events else SyncRows(ApplyRow(events, rows[0]), rows[1..])
  }

  /** `next(csv_reader)`: the header row is dropped. */
  function DataRows(rows: seq<seq<string>>): seq<seq<string>> {
    if rows == [] then [] else rows[1..]
  }

  /** One turn of the loop over `rows[i..]` */
  lemma SyncRowsStep(events: seq<Event>, rows: seq<seq<string>>, i: nat)
    requires i < |rows|
    ensures SyncRows(events, rows[i..]) == SyncRows(ApplyRow(events, rows[i]), rows[i + 1..])
  {
    assert rows[i..][0] == rows[i] && rows[i..][1..] == rows[i + 1..];
  }

  lemma KeepsTitlesTransitive(a: seq<Event>, b: seq<Event>, c: seq<Event>)
    requires KeepsTitles(a, b) && KeepsTitles(b, c)
    ensures KeepsTitles(a, c)
  {
  }

  /** A sync removes no event, renames none, and every event it adds has a
      title that no other event has, so it never duplicates a title. */
  lemma {:induction false} SyncKeepsTitles(events: seq<Event>, rows: seq<seq<string>>)
    ensures KeepsTitles(events, SyncRows(events, rows))
    ensures AddsOnlyNewTitles(events, SyncRows(events, rows))
    decreases |rows|
  {
    if rows != [] {
      var mid := ApplyRow(events, rows[0]);
      var r := SyncRows(mid, rows[1..]);
      ApplyRowMeaning(events, rows[0]);
      SyncKeepsTitles(mid, rows[1..]);
      KeepsTitlesTransitive(events, mid, r);
      forall i, j | 0 <= i < j < |r| && |events| <= j
        ensures r[i].title != r[j].title
      {
        if j < |mid| {
          assert r[i].title == mid[i].title && r[j].title == mid[j].title;
        }
      }
    }
  }

  /** Consequently a table with unique titles keeps them unique. */
  lemma SyncPreservesUniqueTitles(events: seq<Event>, rows: seq<seq<string>>)
    requires UniqueTitles(events)
    ensures UniqueTitles(SyncRows(events, rows))
  {
    SyncKeepsTitles(events, rows);
    var r := SyncRows(events, rows);
    forall i, j | 0 <= i < j < |r|
      ensures r[i].title != r[j].title
    {
      if j < |events| {
        assert r[i].title == events[i].title && r[j].title == events[j].title;
      }
    }
  }

  lemma KeptTitleStays(before: seq<Event>, after: seq<Event>, title: string)
    requires KeepsTitles(before, after) && HasTitle(before, title)
    ensures HasTitle(after, title)
  {
    var k :| 0 <= k < |before| && before[k].title == title;
    assert after[k].title == title;
  }

  /** After a sync every well-formed row is represented by an event. */
  lemma {:induction false} SyncCoversRows(events: seq<Event>, rows: seq<seq<string>>, n: nat)
    requires n < |rows| && ParseRow(rows[n]).Some?
    ensures HasTitle(SyncRows(events, rows), ParseRow(rows[n]).value.title)
    decreases |rows|
  {
    var mid := ApplyRow(events, rows[0]);
    var t := ParseRow(rows[n]).value.title;
    var after := SyncRows(mid, rows[1..]);
    if n == 0 {
      UpsertMeaning(events, ParseRow(rows[0]).value);
      SyncKeepsTitles(mid, rows[1..]);
      KeptTitleStays(mid, after, t);
    } else {
      assert rows[1..][n - 1] == rows[n];
      SyncCoversRows(mid, rows[1..], n - 1);
    }
    var k :| 0 <= k < |after| && after[k].title == t;
    assert SyncRows(events, rows) == after;
    assert SyncRows(events, rows)[k].title == t;
  }
}
