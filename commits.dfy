/**
 * processCommits from meta/meta.js: the per-line rows of the commit log are
 * grouped by commit id and each group becomes one commit summary.
 *
 * The browser's Date is replaced by Moment, which carries the local hour,
 * minute and weekday that Date.getHours, getMinutes and getDay would give.
 */
module Commits {
  import opened Wrappers
  import opened Grouping

  type Hour = h: int | 0 <= h < 24
  type Minute = m: int | 0 <= m < 60
  /** 0 is Sunday, as for Date.getDay. */
  type Weekday = d: int | 0 <= d < 7

  /** A parsed point in time: milliseconds since the epoch and its local calendar fields. */
  datatype Moment = Moment(epochMillis: int, hour: Hour, minute: Minute, day: Weekday)

  /** One row of loc.csv after loadData's conversions; `kind` is the csv's `type` column. */
  datatype LineRecord = LineRecord(
    commit: string,
    file: string,
    line: int,
    depth: int,
    length: int,
    kind: string,
    author: string,
    date: Moment,
    time: string,
    timezone: string,
    datetime: Moment)

  /** The own enumerable properties of a commit summary, as processCommits defines them. */
  datatype Summary = Summary(
    id: string,
    url: string,
    author: string,
    date: Moment,
    time: string,
    timezone: string,
    datetime: Moment,
    hourFrac: real,
    totalLines: nat)

  /**
   * The object processCommits builds per commit: its enumerable properties,
   * and the back-reference to the commit's rows, which is defined as a
   * non-enumerable, read-only property and so stays outside `fields`.
   */
  datatype Commit = Commit(fields: Summary, lines: seq<LineRecord>)

  /** A property value as enumeration sees it: a string, a Date or a number. */
  datatype Value = Text(text: string) | Date(moment: Moment) | Number(number: real)

  const CommitUrlPrefix: string := "https://github.com/website.github.io/commit/"

  /**
   * What enumerating a summary's own properties (Object.entries, JSON and
   * the like) yields: the nine properties of the object literal, in
   * definition order. The rows never appear.
   */
  function Enumerate(c: Commit): (entries: seq<(string, Value)>)
    ensures |entries| == 9
    ensures forall e :: e in entries ==> e.0 != "lines"
    ensures forall i, j :: 0 <= i < j < |entries| ==> entries[i].0 != entries[j].0
  {
    var f := c.fields;
    [("id", Text(f.id)), ("url", Text(f.url)), ("author", Text(f.author)), ("date", Date(f.date)),
     ("time", Text(f.time)), ("timezone", Text(f.timezone)), ("datetime", Date(f.datetime)),
     ("hourFrac", Number(f.hourFrac)), ("totalLines", Number(f.totalLines as real))]
  }

  /** The value of the first entry named key, if any. */
  function Lookup(entries: seq<(string, Value)>, key: string): Option<Value> {
    if entries == [] then None
    else if entries[0].0 == key then Some(entries[0].1)
    else Lookup(entries[1..], key)
  }

  /** Reads a summary back from enumerated entries, when every property is there with the right kind. */
  function ReadSummary(entries: seq<(string, Value)>): Option<Summary> {
    match (Lookup(entries, "id"), Lookup(entries, "url"), Lookup(entries, "author"),
           Lookup(entries, "date"), Lookup(entries, "time"), Lookup(entries, "timezone"),
           Lookup(entries, "datetime"), Lookup(entries, "hourFrac"), Lookup(entries, "totalLines"))
    case (Some(Text(id)), Some(Text(url)), Some(Text(author)), Some(Date(date)), Some(Text(time)),
          Some(Text(timezone)), Some(Date(datetime)), Some(Number(hourFrac)), Some(Number(total))) =>
      if total >= 0.0 then Some(Summary(id, url, author, date, time, timezone, datetime, hourFrac, total.Floor))
      else None
    case _ => None
  }

  /**
   * Enumeration loses none of the visible properties and nothing of the
   * rows: the summary is read back from its entries, and two commits with
   * the same visible properties enumerate alike whatever their rows.
   */
  lemma EnumerateSummary(c: Commit, d: Commit)
    ensures ReadSummary(Enumerate(c)) == Some(c.fields)
    ensures c.fields == d.fields ==> Enumerate(c) == Enumerate(d)
  {
    var e, f := Enumerate(c), c.fields;
    LookupFirst(e, 0);
    LookupFirst(e, 1);
    LookupFirst(e, 2);
    LookupFirst(e, 3);
    LookupFirst(e, 4);
    LookupFirst(e, 5);
    LookupFirst(e, 6);
    LookupFirst(e, 7);
    LookupFirst(e, 8);
    assert Lookup(e, "id") == Some(Text(f.id)) && Lookup(e, "url") == Some(Text(f.url));
    assert Lookup(e, "author") == Some(Text(f.author)) && Lookup(e, "date") == Some(Date(f.date));
    assert Lookup(e, "time") == Some(Text(f.time)) && Lookup(e, "timezone") == Some(Text(f.timezone));
    assert Lookup(e, "datetime") == Some(Date(f.datetime)) && Lookup(e, "hourFrac") == Some(Number(f.hourFrac));
    assert Lookup(e, "totalLines") == Some(Number(f.totalLines as real));
    assert (c.fields.totalLines as real).Floor == c.fields.totalLines;
  }

  /** With distinct keys, looking up the key of entry i finds entry i. */
  lemma {:induction false} LookupFirst(entries: seq<(string, Value)>, i: nat)
    requires i < |entries|
    requires forall j :: 0 <= j < i ==> entries[j].0 != entries[i].0
    ensures Lookup(entries, entries[i].0) == Some(entries[i].1)
  {
    if i > 0 {
      LookupFirst(entries[1..], i - 1);
    }
  }

  function CommitId(r: LineRecord): string {
    r.commit
  }

  /** The time of day in hours: the hour plus the minutes as a fraction of an hour. */
  function HourFraction(m: Moment): (f: real)
    ensures 0.0 <= f < 24.0
    ensures m.hour as real <= f < m.hour as real + 1.0
  {
    m.hour as real + m.minute as real / 60.0
  }

  /**
   * The summary of one group: author, date, time, timezone and datetime of
   * its first row, the commit page url, the time of day, the number of rows,
   * and the rows themselves.
   */
  function Summarize(id: string, lines: seq<LineRecord>): (c: Commit)
    requires |lines| > 0
    ensures c.lines == lines && c.fields.totalLines == |lines|
    ensures c.fields.id == id
    ensures |c.fields.url| == |CommitUrlPrefix| + |id|
    ensures c.fields.url[..|CommitUrlPrefix|] == CommitUrlPrefix && c.fields.url[|CommitUrlPrefix|..] == id
    ensures 0.0 <= c.fields.hourFrac < 24.0
  {
    var first := lines[0];
    Commit(Summary(id, CommitUrlPrefix + id, first.author, first.date, first.time, first.timezone,
                   first.datetime, HourFraction(first.datetime), |lines|), lines)
  }

  /** processCommits: group the rows by commit id, then summarize each group. */
  function ProcessCommits(data: seq<LineRecord>): (commits: seq<Commit>)
    ensures |commits| == |GroupsBy(data, CommitId)|
  {
    var gs := GroupsBy(data, CommitId);
    GroupsNonEmpty(data, CommitId);
    seq(|gs|, i requires 0 <= i < |gs| => (assert gs[i] in gs; Summarize(gs[i].key, gs[i].members)))
  }

  /** The rows of data whose commit id is id, in input order. */
  function RowsOf(data: seq<LineRecord>, id: string): seq<LineRecord> {
    Members(data, CommitId, id)
  }

  function SumTotalLines(commits: seq<Commit>): nat {
    if commits == [] then 0 else commits[0].fields.totalLines + SumTotalLines(commits[1..])
  }

  /** Summary i is that of the i-th distinct commit id and of that id's rows. */
  lemma ProcessCommitsAt(data: seq<LineRecord>)
    ensures |ProcessCommits(data)| == |KeysInOrder(data, CommitId)|
    ensures forall i :: 0 <= i < |ProcessCommits(data)| ==>
      ProcessCommits(data)[i].fields.id == KeysInOrder(data, CommitId)[i] &&
      ProcessCommits(data)[i].lines == RowsOf(data, KeysInOrder(data, CommitId)[i])
  {
    GroupsBySpec(data, CommitId);
  }

  /**
   * One summary per distinct commit id, in the order each id first appears
   * in data; ids are pairwise distinct, and an id appears among the
   * summaries exactly when some row carries it.
   */
  lemma ProcessCommitsIds(data: seq<LineRecord>)
    ensures var commits := ProcessCommits(data);
      forall i, j :: 0 <= i < j < |commits| ==> commits[i].fields.id != commits[j].fields.id
    ensures var commits := ProcessCommits(data);
      forall i, j :: 0 <= i < j < |commits| ==>
        FirstIndexOf(data, CommitId, commits[i].fields.id) < FirstIndexOf(data, CommitId, commits[j].fields.id)
    ensures var commits := ProcessCommits(data);
      forall r :: r in data ==> exists i :: 0 <= i < |commits| && commits[i].fields.id == r.commit
    ensures var commits := ProcessCommits(data);
      forall i :: 0 <= i < |commits| ==> exists r :: r in data && r.commit == commits[i].fields.id
  {
    var commits := ProcessCommits(data);
    var ks := KeysInOrder(data, CommitId);
    ProcessCommitsAt(data);
    KeysInOrderSpec(data, CommitId);
    forall r | r in data ensures exists i :: 0 <= i < |commits| && commits[i].fields.id == r.commit {
      var i := IdIndex(data, r);
      assert commits[i].fields.id == r.commit;
    }
    forall i | 0 <= i < |commits| ensures exists r :: r in data && r.commit == commits[i].fields.id {
      assert ks[i] in ks;
      var n := FirstIndexOf(data, CommitId, ks[i]);
      assert data[n] in data && data[n].commit == commits[i].fields.id;
    }
  }

  /** The position of a row's commit id among the distinct ids. */
  lemma IdIndex(data: seq<LineRecord>, r: LineRecord) returns (i: nat)
    requires r in data
    ensures i < |KeysInOrder(data, CommitId)| && KeysInOrder(data, CommitId)[i] == r.commit
  {
    var ks := KeysInOrder(data, CommitId);
    KeysInOrderSpec(data, CommitId);
    var n :| 0 <= n < |data| && data[n] == r;
    assert FirstIndexOf(data, CommitId, r.commit) <= n;
    assert r.commit in ks;
    i :| 0 <= i < |ks| && ks[i] == r.commit;
  }

  /**
   * Each summary: lines holds exactly the rows with its id, in input order;
   * totalLines counts them; author, date, time, timezone and datetime are
   * those of the first row with that id; url is the commit page; and
   * hourFrac lies in [0, 24).
   */
  lemma ProcessCommitsSummary(data: seq<LineRecord>, i: nat)
    requires i < |ProcessCommits(data)|
    ensures FirstIndexOf(data, CommitId, ProcessCommits(data)[i].fields.id) < |data|
    ensures var c := ProcessCommits(data)[i];
      var first := data[FirstIndexOf(data, CommitId, c.fields.id)];
      c.lines == RowsOf(data, c.fields.id) && c.lines != [] &&
      c.fields.totalLines == |RowsOf(data, c.fields.id)| &&
      (forall r :: r in c.lines ==> r.commit == c.fields.id) &&
      c.fields.author == first.author && c.fields.date == first.date && c.fields.time == first.time &&
      c.fields.timezone == first.timezone && c.fields.datetime == first.datetime &&
      c.fields.url == CommitUrlPrefix + c.fields.id &&
      c.fields.hourFrac == first.datetime.hour as real + first.datetime.minute as real / 60.0 &&
      0.0 <= c.fields.hourFrac < 24.0
  {
    var ks := KeysInOrder(data, CommitId);
    GroupsBySpec(data, CommitId);
    KeysInOrderSpec(data, CommitId);
    assert ks[i] in ks;
    MembersFirst(data, CommitId, ks[i]);
  }

  lemma {:induction false} SumTotalLinesOfGroups(gs: seq<Group<string, LineRecord>>, commits: seq<Commit>)
    requires |commits| == |gs|
    requires forall i :: 0 <= i < |gs| ==> commits[i].fields.totalLines == |gs[i].members|
    ensures SumTotalLines(commits) == TotalMembers(gs)
  {
    if gs != [] {
      SumTotalLinesOfGroups(gs[1..], commits[1..]);
    }
  }

  /** Every row belongs to exactly one summary: the totalLines add up to the number of rows. */
  lemma ProcessCommitsTotal(data: seq<LineRecord>)
    ensures SumTotalLines(ProcessCommits(data)) == |data|
  {
    GroupsByTotal(data, CommitId);
    SumTotalLinesOfGroups(GroupsBy(data, CommitId), ProcessCommits(data));
  }
}
