/** The loaded table: one `Record` per patient visit, the group filter behind
    the checklist, the checklist's option list, and the sort by exam date. */
module Records {

  /** Group labels are the checklist's values; they are compared and sorted as integers. */
  type Group = int

  /** One row of the table. `examDate` is the exam date as a day number. */
  datatype Record = Record(
    id: string,
    group: Group,
    sex: string,
    age: int,
    examDate: int,
    hemoglobin: real,
    ferritin: real,
    protein: real,
    heartRate: real,
    selfRatedHealth: real)

  /** The numeric columns the charts aggregate. */
  datatype Field = Hemoglobin | Ferritin | Protein | HeartRate | SelfRatedHealth

  function Get(r: Record, f: Field): real
  {
    match f
    case Hemoglobin => r.hemoglobin
    case Ferritin => r.ferritin
    case Protein => r.protein
    case HeartRate => r.heartRate
    case SelfRatedHealth => r.selfRatedHealth
  }

  /** `rows[f]`: one column of the table, row by row. */
  function Column(rows: seq<Record>, f: Field): (c: seq<real>)
    ensures |c| == |rows|
    ensures forall i | 0 <= i < |rows| :: c[i] == Get(rows[i], f)
    ensures forall r | r in rows :: Get(r, f) in c
  {
    var c := seq(|rows|, i requires 0 <= i < |rows| => Get(rows[i], f));
    assert forall r | r in rows :: exists i :: 0 <= i < |rows| && rows[i] == r && c[i] == Get(r, f);
    c
  }

  /** Every value of a column comes from some row. */
  lemma ColumnValueFromRow(rows: seq<Record>, f: Field, v: real)
    requires v in Column(rows, f)
    ensures exists r :: r in rows && Get(r, f) == v
  {
    var i :| 0 <= i < |rows| && Column(rows, f)[i] == v;
    assert rows[i] in rows;
  }

  /** The set of labels that occur in the table. */
  function GroupsIn(rows: seq<Record>): set<Group>
  {
    set r | r in rows :: r.group
  }

  // ---------------------------------------------------------------------------
  // Row selection: a boolean mask over the table, `rows[mask]`

  /** The rows satisfying `p`, in table order. */
  function Where(rows: seq<Record>, p: Record -> bool): (kept: seq<Record>)
    ensures |kept| <= |rows|
    ensures forall r :: r in kept <==> r in rows && p(r)
  {
    if rows == [] then []
    else if p(rows[0]) then [rows[0]] + Where(rows[1..], p)
    else Where(rows[1..], p)
  }

  /** Each row satisfying `p` is kept as often as it occurs, every other row not at all. */
  lemma {:induction false} WhereMultiplicity(rows: seq<Record>, p: Record -> bool, r: Record)
    ensures multiset(Where(rows, p))[r] == if p(r) then multiset(rows)[r] else 0
  {
    if rows != [] {
      assert rows == [rows[0]] + rows[1..];
      WhereMultiplicity(rows[1..], p, r);
    }
  }

  /** Selection keeps table order: selecting from a concatenation concatenates the selections. */
  lemma {:induction false} WhereAppend(a: seq<Record>, b: seq<Record>, p: Record -> bool)
    ensures Where(a + b, p) == Where(a, p) + Where(b, p)
  {
    if a != [] {
      var ab := a + b;
      assert ab[0] == a[0] && ab[1..] == a[1..] + b;
      WhereAppend(a[1..], b, p);
      if p(a[0]) {
        calc {
          Where(ab, p);
          [a[0]] + Where(a[1..] + b, p);
          [a[0]] + (Where(a[1..], p) + Where(b, p));
          ([a[0]] + Where(a[1..], p)) + Where(b, p);
        }
      }
    } else {
      assert a + b == b;
    }
  }

  // ---------------------------------------------------------------------------
  // The filter `df[df['Group'].isin(selected_groups)]`

  /** The rows whose group is selected, in table order. */
  function Filter(data: seq<Record>, selected: set<Group>): (kept: seq<Record>)
    ensures |kept| <= |data|
    ensures forall r :: r in kept <==> r in data && r.group in selected
  {
    Where(data, (r: Record) => r.group in selected)
  }

  /** The filter keeps table order: filtering a concatenation concatenates the filtered parts. */
  lemma FilterAppend(a: seq<Record>, b: seq<Record>, selected: set<Group>)
    ensures Filter(a + b, selected) == Filter(a, selected) + Filter(b, selected)
  {
    WhereAppend(a, b, (r: Record) => r.group in selected);
  }

  /** Each selected row is kept as often as it occurs, each other row not at all. */
  lemma FilterMultiplicity(data: seq<Record>, selected: set<Group>, r: Record)
    ensures multiset(Filter(data, selected))[r] == if r.group in selected then multiset(data)[r] else 0
  {
    WhereMultiplicity(data, (r: Record) => r.group in selected, r);
  }

  /** Labels that occur in no row select nothing. */
  lemma {:induction false} FilterIgnoresAbsentLabels(data: seq<Record>, selected: set<Group>)
    ensures Filter(data, selected) == Filter(data, selected * GroupsIn(data))
  {
    FilterWithin(data, selected, GroupsIn(data));
  }

  lemma {:induction false} FilterWithin(data: seq<Record>, selected: set<Group>, present: set<Group>)
    requires forall r | r in data :: r.group in present
    ensures Filter(data, selected) == Filter(data, selected * present)
  {
    if data != [] {
      assert data[0] in data;
      assert forall r | r in data[1..] :: r in data;
      FilterWithin(data[1..], selected, present);
    }
  }

  /** An empty selection keeps nothing. */
  lemma {:induction false} FilterNothing(data: seq<Record>, selected: set<Group>)
    requires selected == {}
    ensures Filter(data, selected) == []
  {
    if data != [] {
      FilterNothing(data[1..], selected);
    }
  }

  /** Selecting every label that occurs keeps the whole table. */
  lemma {:induction false} FilterAll(data: seq<Record>, selected: set<Group>)
    requires forall r | r in data :: r.group in selected
    ensures Filter(data, selected) == data
  {
    if data != [] {
      assert data[0] in data;
      assert forall r | r in data[1..] :: r in data;
      FilterAll(data[1..], selected);
    }
  }

  /** Selecting one more label adds exactly that label's rows to the count. */
  lemma {:induction false} FilterCountSplit(data: seq<Record>, selected: set<Group>, g: Group)
    requires g !in selected
    ensures |Filter(data, selected + {g})| == |Filter(data, selected)| + |Filter(data, {g})|
  {
    if data != [] {
      FilterCountSplit(data[1..], selected, g);
    }
  }

  // ---------------------------------------------------------------------------
  // The checklist options `sorted(df['Group'].unique())`

  predicate StrictlyIncreasing(s: seq<Group>)
  {
    forall i, j | 0 <= i < j < |s| :: s[i] < s[j]
  }

  /** Adds `g` to a sorted list of distinct labels, keeping it sorted and distinct. */
  function InsertLabel(g: Group, s: seq<Group>): (r: seq<Group>)
    requires StrictlyIncreasing(s)
    ensures StrictlyIncreasing(r)
    ensures forall x :: x in r <==> x == g || x in s
  {
    if s == [] then [g]
    else if g < s[0] then [g] + s
    else if g == s[0] then s
    else
      var rest := InsertLabel(g, s[1..]);
      assert forall x | x in s[1..] :: s[0] < x;
      assert forall j | 0 <= j < |rest| :: s[0] < rest[j] by {
        forall j | 0 <= j < |rest| ensures s[0] < rest[j] {
          assert rest[j] in rest;
        }
      }
      [s[0]] + rest
  }

  /** The checklist's options: every label of the table once, in ascending order. */
  function GroupOptions(data: seq<Record>): (options: seq<Group>)
    ensures StrictlyIncreasing(options)
    ensures forall g :: g in options <==> g in GroupsIn(data)
  {
    if data == [] then []
    else
      var rest := GroupOptions(data[1..]);
      assert forall g :: g in GroupsIn(data) <==> g == data[0].group || g in GroupsIn(data[1..]);
      InsertLabel(data[0].group, rest)
  }

  /** The checklist's initial value: all options ticked. */
  function DefaultSelection(data: seq<Record>): (selected: set<Group>)
    ensures selected == GroupsIn(data)
  {
    set g | g in GroupOptions(data)
  }

  /** With the initial selection the filter keeps the whole table. */
  lemma DefaultSelectionKeepsAll(data: seq<Record>)
    ensures Filter(data, DefaultSelection(data)) == data
  {
    FilterAll(data, DefaultSelection(data));
  }

  // ---------------------------------------------------------------------------
  // `filtered.sort_values('ExamDate')`

  predicate SortedByDate(rows: seq<Record>)
  {
    forall i, j | 0 <= i < j < |rows| :: rows[i].examDate <= rows[j].examDate
  }

  function InsertByDate(r: Record, rows: seq<Record>): (out: seq<Record>)
    requires SortedByDate(rows)
    ensures SortedByDate(out)
    ensures multiset(out) == multiset(rows) + multiset{r}
  {
    if rows == [] || r.examDate <= rows[0].examDate then
      NotAfterHead(r.examDate, rows);
      PrependKeepsSorted(r, rows);
      [r] + rows
    else
      var rest := InsertByDate(r, rows[1..]);
      assert rows == [rows[0]] + rows[1..];
      HeadIsEarliest(rows);
      assert forall x | x in multiset(rest) :: rows[0].examDate <= x.examDate by {
        forall x | x in multiset(rest) ensures rows[0].examDate <= x.examDate {
          if x != r {
            assert x in multiset(rows);
          }
        }
      }
      NotBeforeAtIndices(rows[0].examDate, rest);
      PrependKeepsSorted(rows[0], rest);
      [rows[0]] + rest
  }

  /** A date no later than the head of a date-sorted list is no later than any of its rows. */
  lemma NotAfterHead(d: int, rows: seq<Record>)
    requires SortedByDate(rows)
    requires rows == [] || d <= rows[0].examDate
    ensures forall j | 0 <= j < |rows| :: d <= rows[j].examDate
  {
  }

  /** The first row of a date-sorted list is no later than any row of it. */
  lemma HeadIsEarliest(rows: seq<Record>)
    requires SortedByDate(rows) && rows != []
    ensures forall x | x in multiset(rows) :: rows[0].examDate <= x.examDate
  {
    forall x | x in multiset(rows) ensures rows[0].examDate <= x.examDate {
      var k :| 0 <= k < |rows| && rows[k] == x;
    }
  }

  /** A bound on every member of a sequence bounds every index of it. */
  lemma NotBeforeAtIndices(d: int, rows: seq<Record>)
    requires forall x | x in multiset(rows) :: d <= x.examDate
    ensures forall j | 0 <= j < |rows| :: d <= rows[j].examDate
  {
    forall j | 0 <= j < |rows| ensures d <= rows[j].examDate {
      assert rows[j] in multiset(rows);
    }
  }

  /** Prepending a row no later than any other keeps a list sorted by date. */
  lemma PrependKeepsSorted(r: Record, rows: seq<Record>)
    requires SortedByDate(rows)
    requires forall j | 0 <= j < |rows| :: r.examDate <= rows[j].examDate
    ensures SortedByDate([r] + rows)
  {
    var out := [r] + rows;
    forall i, j | 0 <= i < j < |out| ensures out[i].examDate <= out[j].examDate {
      if i > 0 {
        assert out[i] == rows[i - 1] && out[j] == rows[j - 1];
      } else {
        assert out[j] == rows[j - 1];
      }
    }
  }

  /** The rows reordered by ascending exam date: a sorted permutation of the input. */
  function SortByDate(rows: seq<Record>): (out: seq<Record>)
    ensures SortedByDate(out)
    ensures multiset(out) == multiset(rows)
  {
    if rows == [] then []
    else
      assert rows == [rows[0]] + rows[1..];
      InsertByDate(rows[0], SortByDate(rows[1..]))
  }
}
