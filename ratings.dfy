/** The ratings table of `datasets/ml100k_seq.py`: the tab-separated lines of
    `u.data` turned into rows of four string columns, and the per-user view
    that `df.loc[df['uid'] == uid].sort_values(by='timestamp')` gives. Every
    column stays a string, as in the source: timestamps are ordered as text. */
module Ratings {
  import opened Wrappers
  import opened PyStr

  datatype Row = Row(uid: string, iid: string, rating: string, timestamp: string)

  /** An entry of the list read from the file: first the raw text, then (once
      the parse loop has passed it) its list of columns. */
  datatype Line = Raw(text: string) | Fields(cols: seq<string>)

  /** pandas' refusal to build the four-column frame: the first line whose
      width is not four, and that width. */
  datatype TableError = ColumnCount(line: nat, width: nat)

  /** `line.strip().split('\t')`. */
  function ParseLine(text: string): seq<string>
  {
    Split(Strip(text), '\t')
  }

  /** The columns of a line: at least one, none holding a tab, and joined
      back with tabs they are the stripped line. */
  lemma ParseLineSpec(text: string)
    ensures |ParseLine(text)| >= 1
    ensures forall c :: c in ParseLine(text) ==> '\t' !in c
    ensures Join(ParseLine(text), "\t") == Strip(text)
  {
    JoinSplit(Strip(text), '\t');
  }

  /** The parse loop: every entry of `lines` is replaced, in place, by its
      columns. */
  method ParseLines(lines: array<Line>)
    requires forall i :: 0 <= i < lines.Length ==> lines[i].Raw?
    modifies lines
    ensures forall i :: 0 <= i < lines.Length ==> lines[i] == Fields(ParseLine(old(lines[i]).text))
  {
    for i := 0 to lines.Length
      invariant forall k :: 0 <= k < i ==> lines[k] == Fields(ParseLine(old(lines[k]).text))
      invariant forall k :: i <= k < lines.Length ==> lines[k] == old(lines[k])
    {
      lines[i] := Fields(ParseLine(lines[i].text));
    }
  }

  /** The number of columns of a parsed line. An unparsed line never reaches
      the table construction, since the parse loop replaces every entry, so
      its width of 1 is an arbitrary placeholder. */
  function Width(line: Line): nat
  {
    match line
    case Raw(_) => 1
    case Fields(cols) => |cols|
  }

  /** The row a line becomes under the columns uid, iid, rating, timestamp. */
  function RowOf(line: Line): Option<Row>
  {
    match line
    case Fields(cols) =>
      if |cols| == 4 then Some(Row(cols[0], cols[1], cols[2], cols[3])) else None
    case Raw(_) => None
  }

  /** `pd.DataFrame(lines, columns=['uid', 'iid', 'rating', 'timestamp'])`. */
  function ToRows(lines: seq<Line>): (r: Result<seq<Row>, TableError>)
    ensures r.Success? <==> forall i :: 0 <= i < |lines| ==> RowOf(lines[i]).Some?
    ensures r.Success? ==>
      && |r.value| == |lines|
      && forall i :: 0 <= i < |lines| ==> RowOf(lines[i]) == Some(r.value[i])
    ensures r.Failure? ==>
      && r.error.line < |lines|
      && RowOf(lines[r.error.line]).None?
      && r.error.width == Width(lines[r.error.line])
      && forall i :: 0 <= i < r.error.line ==> RowOf(lines[i]).Some?
  {
    if lines == [] then Success([])
    else
      match RowOf(lines[0])
      case None => Failure(ColumnCount(0, Width(lines[0])))
      case Some(row) =>
        match ToRows(lines[1..])
        case Failure(ColumnCount(k, w)) => Failure(ColumnCount(k + 1, w))
        case Success(rest) => Success([row] + rest)
  }

  /** The `iid` column. */
  function Iids(rows: seq<Row>): (ids: seq<string>)
    ensures |ids| == |rows|
    ensures forall i :: 0 <= i < |rows| ==> ids[i] == rows[i].iid
  {
    if rows == [] then [] else [rows[0].iid] + Iids(rows[1..])
  }

  /** The `uid` column. */
  function Uids(rows: seq<Row>): (ids: seq<string>)
    ensures |ids| == |rows|
    ensures forall i :: 0 <= i < |rows| ==> ids[i] == rows[i].uid
  {
    if rows == [] then [] else [rows[0].uid] + Uids(rows[1..])
  }

  /** `df.loc[df['uid'] == uid]`: the rows of one user, in table order. */
  function UserRows(rows: seq<Row>, uid: string): (r: seq<Row>)
    ensures forall i :: 0 <= i < |r| ==> r[i].uid == uid
    ensures forall x :: multiset(r)[x] == if x.uid == uid then multiset(rows)[x] else 0
  {
    if rows == [] then []
    else
      assert rows == [rows[0]] + rows[1..];
      (if rows[0].uid == uid then [rows[0]] else []) + UserRows(rows[1..], uid)
  }

  /** Ordered by the timestamp column, compared as strings. */
  predicate SortedByTimestamp(rows: seq<Row>)
  {
    forall i, j :: 0 <= i < j < |rows| ==> LexLe(rows[i].timestamp, rows[j].timestamp)
  }

  /** `x` placed into a list ordered by timestamp, before the first row
      it does not follow. */
  function Insert(x: Row, s: seq<Row>): (r: seq<Row>)
    ensures |r| == |s| + 1
  {
    if s == [] then [x]
    else if LexLe(x.timestamp, s[0].timestamp) then [x] + s
    else [s[0]] + Insert(x, s[1..])
  }

  lemma {:induction false} InsertPermutes(x: Row, s: seq<Row>)
    ensures multiset(Insert(x, s)) == multiset(s) + multiset{x}
  {
    if s != [] {
      assert s == [s[0]] + s[1..];
      if !LexLe(x.timestamp, s[0].timestamp) {
        InsertPermutes(x, s[1..]);
      }
    }
  }

  lemma {:induction false} InsertIids(x: Row, s: seq<Row>)
    ensures multiset(Iids(Insert(x, s))) == multiset(Iids(s)) + multiset{x.iid}
  {
    if s == [] {
      assert Iids([x]) == [x.iid];
    } else if LexLe(x.timestamp, s[0].timestamp) {
      assert ([x] + s)[1..] == s;
      assert Iids([x] + s) == [x.iid] + Iids(s);
    } else {
      var rest := Insert(x, s[1..]);
      InsertIids(x, s[1..]);
      assert ([s[0]] + rest)[1..] == rest;
      assert Iids([s[0]] + rest) == [s[0].iid] + Iids(rest);
      assert Iids(s) == [s[0].iid] + Iids(s[1..]);
    }
  }

  lemma {:induction false} InsertSorted(x: Row, s: seq<Row>)
    requires SortedByTimestamp(s)
    ensures SortedByTimestamp(Insert(x, s))
  {
    if s == [] {
    } else if LexLe(x.timestamp, s[0].timestamp) {
      forall k | 0 <= k < |s| ensures LexLe(x.timestamp, s[k].timestamp) {
        if k > 0 { LexLeTransitive(x.timestamp, s[0].timestamp, s[k].timestamp); }
      }
    } else {
      LexLeTotal(x.timestamp, s[0].timestamp);
      var rest := Insert(x, s[1..]);
      InsertSorted(x, s[1..]);
      InsertPermutes(x, s[1..]);
      forall k | 0 <= k < |rest| ensures LexLe(s[0].timestamp, rest[k].timestamp) {
        assert rest[k] in multiset(rest);
        if rest[k] != x {
          assert rest[k] in multiset(s[1..]);
          var m :| 0 <= m < |s[1..]| && s[1..][m] == rest[k];
          assert s[m + 1] == rest[k];
        }
      }
    }
  }

  /** `sort_values(by='timestamp')`, modelled by an insertion sort. */
  function SortByTimestamp(rows: seq<Row>): (r: seq<Row>)
    ensures |r| == |rows|
  {
    if rows == [] then [] else Insert(rows[0], SortByTimestamp(rows[1..]))
  }

  /** Sorting gives an ordering by timestamp of the same rows (and so of the
      same item ids); how rows with equal timestamps end up is not promised. */
  lemma SortSpec(rows: seq<Row>)
    ensures SortedByTimestamp(SortByTimestamp(rows))
    ensures multiset(SortByTimestamp(rows)) == multiset(rows)
    ensures multiset(Iids(SortByTimestamp(rows))) == multiset(Iids(rows))
  {
    SortSorted(rows);
    SortPermutes(rows);
    SortIids(rows);
  }

  lemma {:induction false} SortSorted(rows: seq<Row>)
    ensures SortedByTimestamp(SortByTimestamp(rows))
  {
    if rows != [] {
      SortSorted(rows[1..]);
      InsertSorted(rows[0], SortByTimestamp(rows[1..]));
    }
  }

  lemma {:induction false} SortPermutes(rows: seq<Row>)
    ensures multiset(SortByTimestamp(rows)) == multiset(rows)
  {
    if rows != [] {
      assert rows == [rows[0]] + rows[1..];
      SortPermutes(rows[1..]);
      InsertPermutes(rows[0], SortByTimestamp(rows[1..]));
    }
  }

  lemma {:induction false} SortIids(rows: seq<Row>)
    ensures multiset(Iids(SortByTimestamp(rows))) == multiset(Iids(rows))
  {
    if rows != [] {
      SortIids(rows[1..]);
      InsertIids(rows[0], SortByTimestamp(rows[1..]));
      assert Iids(rows) == [rows[0].iid] + Iids(rows[1..]);
    }
  }

  /** The rows of one user, ordered by timestamp. */
  function HistoryRows(rows: seq<Row>, uid: string): seq<Row>
  {
    SortByTimestamp(UserRows(rows, uid))
  }

  /** `list(sub_df['iid'])`: the user's item ids in timestamp order. */
  function History(rows: seq<Row>, uid: string): seq<string>
  {
    Iids(HistoryRows(rows, uid))
  }

  /** The history is the item column of a timestamp-ordered permutation of
      exactly that user's rows; so it holds exactly the user's item ids, each
      as often as the user rated it. */
  lemma HistorySpec(rows: seq<Row>, uid: string)
    ensures SortedByTimestamp(HistoryRows(rows, uid))
    ensures forall i :: 0 <= i < |HistoryRows(rows, uid)| ==> HistoryRows(rows, uid)[i].uid == uid
    ensures forall x :: multiset(HistoryRows(rows, uid))[x] == if x.uid == uid then multiset(rows)[x] else 0
    ensures |History(rows, uid)| == |UserRows(rows, uid)|
    ensures multiset(History(rows, uid)) == multiset(Iids(UserRows(rows, uid)))
    ensures forall i :: 0 <= i < |History(rows, uid)| ==> History(rows, uid)[i] == HistoryRows(rows, uid)[i].iid
  {
    var u := UserRows(rows, uid);
    var h := HistoryRows(rows, uid);
    SortSpec(u);
    assert |h| == |multiset(h)| == |multiset(u)| == |u|;
    forall i | 0 <= i < |h| ensures h[i].uid == uid {
      assert h[i] in multiset(h);
      assert h[i] in multiset(u);
    }
  }

  /** Every user of the table has at least one row, so a non-empty history. */
  lemma {:induction false} UserHasRows(rows: seq<Row>, uid: string)
    requires uid in Uids(rows)
    ensures |History(rows, uid)| >= 1
  {
    var i :| 0 <= i < |rows| && rows[i].uid == uid;
    assert multiset(rows)[rows[i]] > 0;
    assert multiset(UserRows(rows, uid))[rows[i]] > 0;
    HistorySpec(rows, uid);
  }
}
