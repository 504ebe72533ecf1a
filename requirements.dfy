/** The host requirements of the submit handler (script.js:48-85): each form
    row becomes an entry or is dropped, growth is applied, the entries are
    sorted largest first, and their adjusted counts are summed. */
module Requirements {
  import opened Wrappers
  import opened Text

  /** One form row after parseInt: None stands for NaN. An empty growth field
      reaches the model as Some(0), as `growthField ? parseInt(growthField) : 0`
      makes it. */
  datatype Row = Row(name: string, hosts: Option<int>, growth: Option<int>)

  /** The object literal of script.js:71-77. `future` is null unless growth
      was applied. */
  datatype HostEntry = HostEntry(name: string, hosts: int, growth: Option<int>, adjusted: int, future: Option<int>)

  /** `Math.ceil(hosts * (1 + growth / 100))` in exact integer arithmetic. */
  function GrownHosts(hosts: nat, growth: nat): int {
    (hosts * (100 + growth) + 99) / 100
  }

  /** The grown count is the least integer that is at least
      hosts * (100 + growth) / 100, and a positive growth adds at least one
      host. */
  lemma GrownHostsIsCeiling(hosts: nat, growth: nat)
    ensures var r := GrownHosts(hosts, growth);
      && 100 * r >= hosts * (100 + growth)
      && 100 * (r - 1) < hosts * (100 + growth)
    ensures hosts > 0 && growth > 0 ==> GrownHosts(hosts, growth) > hosts
  {
    var n := hosts * (100 + growth);
    var r := (n + 99) / 100;
    assert 100 * r <= n + 99 < 100 * r + 100;
    if hosts > 0 && growth > 0 {
      assert n == 100 * hosts + hosts * growth;
      assert hosts * growth >= 1;
    }
  }

  /** The test of script.js:55, negated: the row is kept when its trimmed
      name is non-empty and its host count is a number above zero. */
  predicate Keeps(row: Row) {
    Trim(row.name) != [] && row.hosts.Some? && row.hosts.value > 0
  }

  /** What every entry that survives normalisation satisfies. */
  predicate WellFormedEntry(e: HostEntry) {
    && e.name != [] && Trim(e.name) == e.name
    && e.hosts > 0
    && e.adjusted >= e.hosts
    && (e.future.None? ==> e.adjusted == e.hosts)
    && (e.future.Some? ==> e.future.value == e.adjusted)
  }

  /** The map callback of script.js:49-78. */
  function NormalizeRow(row: Row): (e: Option<HostEntry>)
    ensures e.Some? <==> Keeps(row)
    ensures e.Some? ==> WellFormedEntry(e.value)
    ensures e.Some? ==> e.value.name == Trim(row.name) && e.value.hosts == row.hosts.value
  {
    var name := Trim(row.name);
    if name == [] || row.hosts.None? || row.hosts.value <= 0 then None
    else
      var hosts := row.hosts.value;
      TrimIdempotent(row.name);
      if row.growth.Some? && row.growth.value > 0 then
        GrownHostsIsCeiling(hosts, row.growth.value);
        var adjusted := GrownHosts(hosts, row.growth.value);
        Some(HostEntry(name, hosts, row.growth, adjusted, Some(adjusted)))
      else
        Some(HostEntry(name, hosts, row.growth, hosts, None))
  }

  /** Growth is applied only when it is a number above zero; then the
      adjusted count is the ceiling of the grown count and exceeds the
      host count. Absent, NaN, zero or negative growth leaves it alone. */
  lemma AdjustedByGrowth(row: Row)
    requires Keeps(row)
    ensures var e := NormalizeRow(row).value;
      && (row.growth.None? || row.growth.value <= 0 ==> e.adjusted == e.hosts && e.future.None?)
      && (row.growth.Some? && row.growth.value > 0 ==>
            && 100 * e.adjusted >= e.hosts * (100 + row.growth.value)
            && 100 * (e.adjusted - 1) < e.hosts * (100 + row.growth.value)
            && e.adjusted > e.hosts
            && e.future == Some(e.adjusted))
  {
    if row.growth.Some? && row.growth.value > 0 {
      GrownHostsIsCeiling(row.hosts.value, row.growth.value);
    }
  }

  /** The `.map(...)` of script.js:48-76: one result per row, null for a
      dropped row. */
  function NormalizeRows(rows: seq<Row>): seq<Option<HostEntry>> {
    seq(|rows|, i => if 0 <= i < |rows| then NormalizeRow(rows[i]) else None)
  }

  /** The whole chain up to the sort: `.map(...).filter(entry => entry !==
      null)` (script.js:48-77). */
  function Normalize(rows: seq<Row>): seq<HostEntry> {
    Somes(NormalizeRows(rows))
  }

  /** An entry is in the result exactly when it is the normalisation of
      some row, which by NormalizeRow's contract is a row the test of
      script.js:55 keeps; and every entry in the result is well formed. */
  lemma NormalizeMembers(rows: seq<Row>, e: HostEntry)
    ensures e in Normalize(rows) <==> exists i | 0 <= i < |rows| :: NormalizeRow(rows[i]) == Some(e)
    ensures e in Normalize(rows) ==> WellFormedEntry(e)
  {
    var results := NormalizeRows(rows);
    SomesMembers(results, e);
    if e in Normalize(rows) {
      var i :| 0 <= i < |results| && results[i] == Some(e);
      assert NormalizeRow(rows[i]) == Some(e);
    }
    if exists i | 0 <= i < |rows| :: NormalizeRow(rows[i]) == Some(e) {
      var i :| 0 <= i < |rows| && NormalizeRow(rows[i]) == Some(e);
      assert results[i] == Some(e);
    }
  }

  /** The map and filter work row by row in form order: the entries of two
      consecutive runs of rows are those of the first run followed by those
      of the second. */
  lemma NormalizeAppend(a: seq<Row>, b: seq<Row>)
    ensures Normalize(a + b) == Normalize(a) + Normalize(b)
  {
    assert NormalizeRows(a + b) == NormalizeRows(a) + NormalizeRows(b);
    SomesAppend(NormalizeRows(a), NormalizeRows(b));
  }

  /** Normalize, row by row: no rows give no entries, and the entries of a
      form are the entry of its first row, if that row is kept, followed by
      the entries of the remaining rows. This fixes the result entry by
      entry, multiplicity and order included. */
  lemma NormalizeInOrder(rows: seq<Row>)
    ensures Normalize([]) == []
    ensures rows != [] ==>
      Normalize(rows) == (if Keeps(rows[0]) then [NormalizeRow(rows[0]).value] else []) + Normalize(rows[1..])
  {
    if rows != [] {
      assert rows == [rows[0]] + rows[1..];
      NormalizeAppend([rows[0]], rows[1..]);
      assert NormalizeRows([rows[0]]) == [NormalizeRow(rows[0])];
      assert Somes([NormalizeRow(rows[0])]) == (if Keeps(rows[0]) then [NormalizeRow(rows[0]).value] else []) + Somes([]);
    }
  }

  /** No row is lost: the number of entries is the number of kept rows. */
  lemma {:induction false} NormalizeCount(rows: seq<Row>)
    ensures |Normalize(rows)| == CountKept(rows)
  {
    if rows != [] {
      var results := NormalizeRows(rows);
      NormalizeCount(rows[1..]);
      assert results[0] == NormalizeRow(rows[0]);
      assert results[1..] == NormalizeRows(rows[1..]);
    }
  }

  function CountKept(rows: seq<Row>): nat {
    if rows == [] then 0 else (if Keeps(rows[0]) then 1 else 0) + CountKept(rows[1..])
  }

  /** Each adjusted count is at least the next one. */
  predicate SortedDesc(s: seq<HostEntry>) {
    forall i | 0 <= i < |s| - 1 :: s[i].adjusted >= s[i + 1].adjusted
  }

  /** Adjusted counts never increase along a sorted sequence. */
  lemma {:induction false} SortedDescPairwise(s: seq<HostEntry>, i: int, j: int)
    requires SortedDesc(s)
    requires 0 <= i <= j < |s|
    ensures s[i].adjusted >= s[j].adjusted
    decreases j - i
  {
    if i < j {
      SortedDescPairwise(s, i + 1, j);
    }
  }

  /** The entries whose adjusted count is k, in their order in s. */
  function WithAdjusted(s: seq<HostEntry>, k: int): seq<HostEntry> {
    if s == [] then []
    else (if s[0].adjusted == k then [s[0]] else []) + WithAdjusted(s[1..], k)
  }

  /** Inserts e before the first entry whose adjusted count is not larger. */
  function Insert(e: HostEntry, s: seq<HostEntry>): (r: seq<HostEntry>)
    ensures |r| == |s| + 1
  {
    if s == [] || s[0].adjusted <= e.adjusted then [e] + s
    else [s[0]] + Insert(e, s[1..])
  }

  /** Inserting into a sorted sequence keeps it sorted. */
  lemma {:induction false} InsertSorted(e: HostEntry, s: seq<HostEntry>)
    requires SortedDesc(s)
    ensures SortedDesc(Insert(e, s))
  {
    if !(s == [] || s[0].adjusted <= e.adjusted) {
      var t := Insert(e, s[1..]);
      var r := [s[0]] + t;
      assert Insert(e, s) == r;
      InsertSorted(e, s[1..]);
      assert t[0] == e || t[0] == s[1];
      forall i | 0 <= i < |r| - 1
        ensures r[i].adjusted >= r[i + 1].adjusted
      {
        if i > 0 {
          assert r[i] == t[i - 1] && r[i + 1] == t[i];
        }
      }
    }
  }

  /** Inserting adds e and loses nothing. */
  lemma {:induction false} InsertPermutes(e: HostEntry, s: seq<HostEntry>)
    ensures multiset(Insert(e, s)) == multiset(s) + multiset{e}
  {
    if !(s == [] || s[0].adjusted <= e.adjusted) {
      InsertPermutes(e, s[1..]);
      assert s == [s[0]] + s[1..];
    }
  }

  /** `.sort((a, b) => b.adjusted - a.adjusted)` (script.js:78): an
      insertion sort, which like Array.prototype.sort is stable. */
  function SortByAdjusted(s: seq<HostEntry>): (r: seq<HostEntry>)
    ensures |r| == |s|
  {
    if s == [] then [] else Insert(s[0], SortByAdjusted(s[1..]))
  }

  /** The sorted entries run from the largest adjusted count down. */
  lemma {:induction false} SortIsOrdered(s: seq<HostEntry>)
    ensures SortedDesc(SortByAdjusted(s))
  {
    if s != [] {
      SortIsOrdered(s[1..]);
      InsertSorted(s[0], SortByAdjusted(s[1..]));
    }
  }

  /** Sorting neither adds nor drops an entry. */
  lemma {:induction false} SortIsPermutation(s: seq<HostEntry>)
    ensures multiset(SortByAdjusted(s)) == multiset(s)
  {
    if s != [] {
      SortIsPermutation(s[1..]);
      InsertPermutes(s[0], SortByAdjusted(s[1..]));
      assert s == [s[0]] + s[1..];
    }
  }

  /** Inserting keeps the relative order of entries with equal counts, and
      puts e before the ones equal to it. */
  lemma {:induction false} InsertStable(e: HostEntry, s: seq<HostEntry>, k: int)
    ensures WithAdjusted(Insert(e, s), k) ==
      (if e.adjusted == k then [e] else []) + WithAdjusted(s, k)
  {
    var w := if e.adjusted == k then [e] else [];
    if s == [] || s[0].adjusted <= e.adjusted {
      var r := [e] + s;
      assert Insert(e, s) == r;
      assert r[0] == e && r[1..] == s;
      assert WithAdjusted(r, k) == w + WithAdjusted(s, k);
    } else {
      var t := Insert(e, s[1..]);
      var r := [s[0]] + t;
      assert Insert(e, s) == r;
      InsertStable(e, s[1..], k);
      assert r[0] == s[0] && r[1..] == t;
      var w0 := if s[0].adjusted == k then [s[0]] else [];
      assert WithAdjusted(r, k) == w0 + WithAdjusted(t, k);
      assert WithAdjusted(s, k) == w0 + WithAdjusted(s[1..], k);
      assert w0 == [] || w == [];
      assert w0 + (w + WithAdjusted(s[1..], k)) == w + (w0 + WithAdjusted(s[1..], k));
    }
  }

  /** The sort is stable: for every count, the entries with that count
      appear in the same order as in the input. */
  lemma {:induction false} SortIsStable(s: seq<HostEntry>, k: int)
    ensures WithAdjusted(SortByAdjusted(s), k) == WithAdjusted(s, k)
  {
    if s != [] {
      SortIsStable(s[1..], k);
      InsertStable(s[0], SortByAdjusted(s[1..]), k);
    }
  }

  /** `reduce((sum, entry) => sum + entry.adjusted, 0)` (script.js:85). */
  function SumAdjusted(s: seq<HostEntry>): int {
    if s == [] then 0 else s[0].adjusted + SumAdjusted(s[1..])
  }

  lemma {:induction false} SumInsert(e: HostEntry, s: seq<HostEntry>)
    ensures SumAdjusted(Insert(e, s)) == e.adjusted + SumAdjusted(s)
  {
    if !(s == [] || s[0].adjusted <= e.adjusted) {
      SumInsert(e, s[1..]);
      var r := Insert(e, s);
      assert r[1..] == Insert(e, s[1..]);
    }
  }

  /** Sorting does not change the total demand. */
  lemma {:induction false} SortKeepsSum(s: seq<HostEntry>)
    ensures SumAdjusted(SortByAdjusted(s)) == SumAdjusted(s)
  {
    if s != [] {
      SortKeepsSum(s[1..]);
      SumInsert(s[0], SortByAdjusted(s[1..]));
    }
  }

  /** The total of positive counts is at least each of them and at least the
      number of entries. */
  lemma {:induction false} SumBounds(s: seq<HostEntry>)
    requires forall i | 0 <= i < |s| :: s[i].adjusted >= 1
    ensures SumAdjusted(s) >= |s|
    ensures forall i | 0 <= i < |s| :: SumAdjusted(s) >= s[i].adjusted
  {
    if s != [] {
      SumBounds(s[1..]);
      forall i | 0 <= i < |s|
        ensures SumAdjusted(s) >= s[i].adjusted
      {
        if i > 0 {
          assert s[i] == s[1..][i - 1];
        }
      }
    }
  }
}
