/**
 * The statistics renderCommitInfo in meta/meta.js shows beside the commit
 * count: the weekday and the hour of day with the most rows, found with
 * d3.rollup and an argmax written as a reduce, and the hour's 12-hour label.
 */
module CommitStats {
  import opened Wrappers
  import opened Grouping
  import opened Commits

  /** The TypeError Array.prototype.reduce throws on an empty array with no initial value. */
  datatype Error = ReduceOfEmptyArray

  /** What the statistics list shows after the total. */
  datatype CommitInfo = CommitInfo(totalCommits: nat, busiestDay: string, busiestHour: string)

  const DayNames: seq<string> :=
    ["Sunday", "Monday", "Tuesday", "Wednesday", "Thursday", "Friday", "Saturday"]

  /** The reducer: keep the accumulated entry only if its count is strictly larger, so the later entry wins ties. */
  function Larger<K>(a: (K, nat), b: (K, nat)): (r: (K, nat))
    ensures r == a || r == b
    ensures r.1 >= a.1 && r.1 >= b.1
    ensures b.1 >= a.1 ==> r == b
  {
    if a.1 > b.1 then a else b
  }

  /** entries.reduce(Larger) on a non-empty array, folding from the left. */
  function ReduceLarger<K>(ps: seq<(K, nat)>): (r: (K, nat))
    requires |ps| > 0
    ensures r in ps
    ensures forall p :: p in ps ==> p.1 <= r.1
  {
    if |ps| == 1 then ps[0]
    else
      var r := Larger(ReduceLarger(Init(ps)), Last(ps));
      assert forall p :: p in ps ==> p in Init(ps) || p == Last(ps) by {
        assert ps == Init(ps) + [Last(ps)];
      }
      r
  }

  /** reduce without an initial value: an error on an empty array. */
  function Reduce<K>(ps: seq<(K, nat)>): (r: Result<(K, nat), Error>)
    ensures r.Err? <==> ps == []
    ensures r.Ok? ==> r.value in ps && forall p :: p in ps ==> p.1 <= r.value.1
  {
    if ps == [] then Err(ReduceOfEmptyArray) else Ok(ReduceLarger(ps))
  }

  /**
   * The winner of the reduce is the LAST entry with the largest count: it
   * stands at some position i, and every later entry has a smaller count.
   */
  lemma {:induction false} ReduceLargerIsLastMaximum<K>(ps: seq<(K, nat)>) returns (i: nat)
    requires |ps| > 0
    ensures i < |ps| && ps[i] == ReduceLarger(ps)
    ensures forall j :: 0 <= j < |ps| ==> ps[j].1 <= ps[i].1
    ensures forall j :: i < j < |ps| ==> ps[j].1 < ps[i].1
  {
    if |ps| == 1 {
      i := 0;
    } else {
      var k := ReduceLargerIsLastMaximum(Init(ps));
      if ReduceLarger(Init(ps)).1 > Last(ps).1 {
        i := k;
      } else {
        i := |ps| - 1;
        assert ps[i] == ReduceLarger(ps);
        forall j | 0 <= j < |ps| ensures ps[j].1 <= ps[i].1 {
          if j < |ps| - 1 {
            assert ps[j] == Init(ps)[j];
          }
        }
      }
    }
  }

  /** The key of the entry that the reduce picks from the row counts per key. */
  function MostActive<K(==)>(data: seq<LineRecord>, key: LineRecord -> K): (r: Result<K, Error>)
    ensures r.Err? <==> data == []
  {
    match Reduce(Rollup(data, key))
    case Ok(p) => Ok(p.0)
    case Err(e) => Err(e)
  }

  function DayOf(r: LineRecord): Weekday {
    r.datetime.day
  }

  function HourOf(r: LineRecord): Hour {
    r.datetime.hour
  }

  /** The number of rows whose key is k. */
  function RowCount<K(==)>(data: seq<LineRecord>, key: LineRecord -> K, k: K): nat {
    |Members(data, key, k)|
  }

  /** The rollup entry of the key of row r: that key with its row count. */
  lemma RollupEntryOf<K>(data: seq<LineRecord>, key: LineRecord -> K, r: LineRecord) returns (j: nat)
    requires r in data
    ensures j < |Rollup(data, key)| && j < |KeysInOrder(data, key)|
    ensures KeysInOrder(data, key)[j] == key(r)
    ensures Rollup(data, key)[j] == (key(r), RowCount(data, key, key(r)))
  {
    var ks := KeysInOrder(data, key);
    RollupSpec(data, key);
    KeysInOrderSpec(data, key);
    var n :| 0 <= n < |data| && data[n] == r;
    assert FirstIndexOf(data, key, key(r)) <= n;
    assert key(r) in ks;
    j :| 0 <= j < |ks| && ks[j] == key(r);
  }

  /**
   * k is a key some row has, no key has more rows than k, and of the keys
   * with as many rows as k, k is the one whose first row comes last.
   */
  predicate LastTiedMax<K(==)>(data: seq<LineRecord>, key: LineRecord -> K, k: K) {
    FirstIndexOf(data, key, k) < |data| &&
    (forall r :: r in data ==> RowCount(data, key, key(r)) <= RowCount(data, key, k)) &&
    (forall r :: r in data && RowCount(data, key, key(r)) == RowCount(data, key, k) ==>
       FirstIndexOf(data, key, key(r)) <= FirstIndexOf(data, key, k))
  }

  /**
   * The most active key: an error exactly on empty data; otherwise a key
   * some row has, with a row count no other key exceeds, and of the keys
   * tied with it the one whose first row comes last.
   */
  lemma MostActiveSpec<K>(data: seq<LineRecord>, key: LineRecord -> K)
    ensures MostActive(data, key).Err? <==> data == []
    ensures MostActive(data, key).Ok? ==> LastTiedMax(data, key, MostActive(data, key).value)
  {
    var ps := Rollup(data, key);
    if data != [] {
      var i := ReduceLargerIsLastMaximum(ps);
      var k := WinnerOf(data, key, i);
      assert MostActive(data, key) == Ok(k);
      forall r | r in data
        ensures RowCount(data, key, key(r)) <= RowCount(data, key, k)
        ensures RowCount(data, key, key(r)) == RowCount(data, key, k) ==>
          FirstIndexOf(data, key, key(r)) <= FirstIndexOf(data, key, k)
      {
        RowAgainstWinner(data, key, i, r);
      }
    }
  }

  /** A row's key against the entry at a last maximum i of the rollup. */
  lemma RowAgainstWinner<K>(data: seq<LineRecord>, key: LineRecord -> K, i: nat, r: LineRecord)
    requires r in data && i < |Rollup(data, key)|
    requires forall j :: 0 <= j < |Rollup(data, key)| ==> Rollup(data, key)[j].1 <= Rollup(data, key)[i].1
    requires forall j :: i < j < |Rollup(data, key)| ==> Rollup(data, key)[j].1 < Rollup(data, key)[i].1
    ensures i < |KeysInOrder(data, key)|
    ensures RowCount(data, key, key(r)) <= RowCount(data, key, KeysInOrder(data, key)[i])
    ensures RowCount(data, key, key(r)) == RowCount(data, key, KeysInOrder(data, key)[i]) ==>
      FirstIndexOf(data, key, key(r)) <= FirstIndexOf(data, key, KeysInOrder(data, key)[i])
  {
    var ps := Rollup(data, key);
    var k := WinnerOf(data, key, i);
    var j := RollupEntryOf(data, key, r);
    assert ps[j].1 <= ps[i].1;
    if j < i {
      KeysFirstSeenOrder(data, key, j, i);
    } else if j > i {
      assert ps[j].1 < ps[i].1;
    }
  }

  /** Distinct keys are listed in the order of their first rows. */
  lemma KeysFirstSeenOrder<K>(data: seq<LineRecord>, key: LineRecord -> K, j: nat, i: nat)
    requires j < i < |KeysInOrder(data, key)|
    ensures FirstIndexOf(data, key, KeysInOrder(data, key)[j]) < FirstIndexOf(data, key, KeysInOrder(data, key)[i])
  {
    KeysInOrderSpec(data, key);
  }

  /** The key at position i of the rollup, a key some row has, with its count. */
  lemma WinnerOf<K>(data: seq<LineRecord>, key: LineRecord -> K, i: nat) returns (k: K)
    requires i < |Rollup(data, key)|
    ensures i < |KeysInOrder(data, key)| && k == KeysInOrder(data, key)[i] == Rollup(data, key)[i].0
    ensures Rollup(data, key)[i].1 == RowCount(data, key, k)
    ensures FirstIndexOf(data, key, k) < |data|
  {
    RollupSpec(data, key);
    KeysInOrderSpec(data, key);
    k := KeysInOrder(data, key)[i];
    assert k in KeysInOrder(data, key);
    assert FirstIndexOf(data, key, k) < |data|;
  }

  /** The hour as the label shows it: the hour modulo 12, with 0 shown as 12. */
  function DisplayHour(h: Hour): (d: int)
    ensures 1 <= d <= 12
    ensures d % 12 == h % 12
  {
    if h % 12 == 0 then 12 else h % 12
  }

  function Meridiem(h: Hour): (s: string)
    ensures s == "PM" <==> h >= 12
    ensures s == "AM" <==> h < 12
  {
    if h >= 12 then "PM" else "AM"
  }

  function DigitChar(n: nat): (c: char)
    requires n < 10
    ensures '0' <= c <= '9'
  {
    "0123456789"[n]
  }

  function DigitValue(c: char): nat {
    if '0' <= c <= '9' then c as int - '0' as int else 0
  }

  /** How a template literal formats a non-negative integer: its decimal digits, without leading zeros. */
  function DecimalString(n: nat): (s: string)
    ensures |s| > 0
    ensures forall c :: c in s ==> '0' <= c <= '9'
    ensures n > 0 ==> s[0] != '0'
    ensures n == 0 ==> s == "0"
  {
    if n < 10 then [DigitChar(n)] else DecimalString(n / 10) + [DigitChar(n % 10)]
  }

  /** The value of a string of decimal digits. */
  function DecimalValue(s: string): nat {
    if s == [] then 0 else 10 * DecimalValue(Init(s)) + DigitValue(Last(s))
  }

  /** Reading a formatted number back gives the number. */
  lemma {:induction false} DecimalRoundTrip(n: nat)
    ensures DecimalValue(DecimalString(n)) == n
  {
    if n >= 10 {
      DecimalRoundTrip(n / 10);
      var s := DecimalString(n);
      assert Init(s) == DecimalString(n / 10);
      assert DigitValue(Last(s)) == n % 10;
    } else {
      assert DigitValue(DigitChar(n)) == n;
    }
  }

  /** The hour range label: the displayed hour with minutes 00, a dash, the same hour with minutes 59, each followed by the suffix. */
  function HourLabel(h: Hour): (text: string)
    ensures |text| >= 2 && text[|text| - 2..] == (if h >= 12 then "PM" else "AM")
  {
    var d, a := DecimalString(DisplayHour(h)), Meridiem(h);
    d + ":00 " + a + " - " + d + ":59 " + a
  }

  /** The position of the first colon in s, or |s| if there is none. */
  function ColonIndex(s: string): (n: nat)
    ensures n <= |s|
  {
    if s == [] || s[0] == ':' then 0 else 1 + ColonIndex(s[1..])
  }

  /** In a string that starts with digits and then a colon, the first colon is the one after the digits. */
  lemma {:induction false} ColonAfterDigits(d: string, s: string)
    requires forall c :: c in d ==> '0' <= c <= '9'
    requires |d| < |s| && s[..|d|] == d && s[|d|] == ':'
    ensures ColonIndex(s) == |d|
  {
    if d != [] {
      assert s[0] == d[0] && d[0] in d;
      assert forall c :: c in d[1..] ==> c in d;
      assert s[1..][..|d| - 1] == d[1..];
      ColonAfterDigits(d[1..], s[1..]);
    }
  }

  /** The label starts with the displayed hour and a colon, and ends with the suffix. */
  lemma HourLabelParts(h: Hour)
    ensures var d, text := DecimalString(DisplayHour(h)), HourLabel(h);
      |d| < |text| && text[..|d|] == d && text[|d|] == ':' && text[|text| - 2..] == Meridiem(h)
  {
  }

  /** The label determines the hour: distinct hours get distinct labels. */
  lemma HourLabelInjective(h1: Hour, h2: Hour)
    requires HourLabel(h1) == HourLabel(h2)
    ensures h1 == h2
  {
    var d1, d2 := DecimalString(DisplayHour(h1)), DecimalString(DisplayHour(h2));
    HourLabelParts(h1);
    HourLabelParts(h2);
    ColonAfterDigits(d1, HourLabel(h1));
    ColonAfterDigits(d2, HourLabel(h2));
    assert d1 == d2;
    DecimalRoundTrip(DisplayHour(h1));
    DecimalRoundTrip(DisplayHour(h2));
    assert Meridiem(h1) == Meridiem(h2);
  }

  /**
   * renderCommitInfo's figures: the number of commits, the name of the
   * busiest weekday and the label of the busiest hour. On empty data the
   * weekday reduce throws.
   */
  function CommitInfoOf(data: seq<LineRecord>, commits: seq<Commit>): (r: Result<CommitInfo, Error>)
    ensures r.Err? <==> data == []
    ensures r.Ok? ==> r.value.totalCommits == |commits|
  {
    match MostActive(data, DayOf)
    case Err(e) => Err(e)
    case Ok(day) =>
      match MostActive(data, HourOf)
      case Err(e) => Err(e)
      case Ok(hour) => Ok(CommitInfo(|commits|, DayNames[day], HourLabel(hour)))
  }

  /**
   * The figures exist exactly for non-empty data; then the total is the
   * number of summaries, the weekday is named after the busiest weekday and
   * the hour label is that of the busiest hour, ties going in each case to
   * the key whose first row comes last.
   */
  lemma CommitInfoSpec(data: seq<LineRecord>)
    ensures CommitInfoOf(data, ProcessCommits(data)).Err? <==> data == []
    ensures CommitInfoOf(data, ProcessCommits(data)).Ok? ==>
      var info := CommitInfoOf(data, ProcessCommits(data)).value;
      info.totalCommits == |KeysInOrder(data, CommitId)| &&
      (exists d: Weekday :: info.busiestDay == DayNames[d] && LastTiedMax(data, DayOf, d)) &&
      (exists h: Hour :: info.busiestHour == HourLabel(h) && LastTiedMax(data, HourOf, h))
  {
    MostActiveSpec(data, DayOf);
    MostActiveSpec(data, HourOf);
    GroupsBySpec(data, CommitId);
    if data != [] {
      var info := CommitInfoOf(data, ProcessCommits(data)).value;
      var d := MostActive(data, DayOf).value;
      var h := MostActive(data, HourOf).value;
      assert info.busiestDay == DayNames[d] && LastTiedMax(data, DayOf, d);
      assert info.busiestHour == HourLabel(h) && LastTiedMax(data, HourOf, h);
    }
  }
}
