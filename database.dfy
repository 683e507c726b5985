/**
 * The SQLite table `repo_transfers` and the three operations on it: insert
 * with `INSERT OR IGNORE` on the unique key, the newest-first listing and the
 * statistics. The table is an append-only sequence of rows.
 */
module Database {
  import opened Wrappers
  import opened Seqs

  /** A row of `repo_transfers`; `createdAt` is the `CURRENT_TIMESTAMP` of the insert, in seconds. */
  datatype Row = Row(
    repo: string,
    oldOwner: string,
    newOwner: string,
    date: int,
    stars: int,
    language: Option<string>,
    createdAt: int)

  /** The columns of `UNIQUE(repo, old_owner, new_owner, date)`. */
  datatype Key = Key(repo: string, oldOwner: string, newOwner: string, date: int)

  function KeyOf(r: Row): Key {
    Key(r.repo, r.oldOwner, r.newOwner, r.date)
  }

  /** The table's uniqueness constraint. */
  ghost predicate UniqueKeys(rows: seq<Row>) {
    forall i, j :: 0 <= i < j < |rows| ==> KeyOf(rows[i]) != KeyOf(rows[j])
  }

  predicate HasKey(rows: seq<Row>, k: Key) {
    exists r :: r in rows && KeyOf(r) == k
  }

  /** `INSERT OR IGNORE`: append the row unless a row with the same key is already there. */
  function InsertOrIgnore(rows: seq<Row>, row: Row): seq<Row> {
    if HasKey(rows, KeyOf(row)) then rows else rows + [row]
  }

  /** Inserting keeps the keys unique, and the table afterwards holds a row with the new key. */
  lemma InsertKeepsKeysUnique(rows: seq<Row>, row: Row)
    requires UniqueKeys(rows)
    ensures UniqueKeys(InsertOrIgnore(rows, row))
    ensures HasKey(InsertOrIgnore(rows, row), KeyOf(row))
  {
    var after := InsertOrIgnore(rows, row);
    if !HasKey(rows, KeyOf(row)) {
      assert after[|rows|] == row;
      forall i, j | 0 <= i < j < |after|
        ensures KeyOf(after[i]) != KeyOf(after[j])
      {
        if j == |rows| {
          assert after[i] in rows;
        }
      }
    }
  }

  /**
   * A second insert of a row with the same key, whatever its other columns
   * and its timestamp, leaves the table as the first insert left it.
   */
  lemma InsertIdempotent(rows: seq<Row>, row: Row, again: Row)
    requires KeyOf(again) == KeyOf(row)
    ensures InsertOrIgnore(InsertOrIgnore(rows, row), again) == InsertOrIgnore(rows, row)
  {
    var after := InsertOrIgnore(rows, row);
    if !HasKey(rows, KeyOf(row)) {
      assert after[|rows|] == row;
      assert row in after;
    }
  }

  /** `INSERT OR IGNORE` keeps the old rows in place, adds at most the new one, and leaves its key present. */
  lemma InsertOrIgnoreKeeps(rows: seq<Row>, row: Row)
    ensures rows <= InsertOrIgnore(rows, row)
    ensures forall r :: r in InsertOrIgnore(rows, row) ==> r in rows || r == row
    ensures HasKey(InsertOrIgnore(rows, row), KeyOf(row))
  {
    if !HasKey(rows, KeyOf(row)) {
      assert row in InsertOrIgnore(rows, row);
    }
  }

  /** The newest `limit` rows (`ORDER BY created_at DESC LIMIT limit`); SQLite reads a negative limit as no limit. */
  function Newest(rows: seq<Row>, limit: int): seq<Row> {
    var sorted := SortDesc(rows, CreatedAt);
    if limit < 0 || limit >= |sorted| then sorted else sorted[..limit]
  }

  function CreatedAt(r: Row): int {
    r.createdAt
  }

  /** The projection of the `new_owner` column. */
  function Buyers(rows: seq<Row>): (owners: seq<string>)
    ensures |owners| == |rows|
    ensures forall i :: 0 <= i < |rows| ==> owners[i] == rows[i].newOwner
  {
    if rows == [] then [] else [rows[0].newOwner] + Buyers(rows[1..])
  }

  /** The projection of the `old_owner` column. */
  function Sellers(rows: seq<Row>): (owners: seq<string>)
    ensures |owners| == |rows|
    ensures forall i :: 0 <= i < |rows| ==> owners[i] == rows[i].oldOwner
  {
    if rows == [] then [] else [rows[0].oldOwner] + Sellers(rows[1..])
  }

  /** `MAX(stars)`: SQL `NULL` on an empty table, otherwise the largest star count. */
  function MaxStars(rows: seq<Row>): (m: Option<int>)
    ensures m.None? <==> rows == []
    ensures m.Some? ==> (forall r :: r in rows ==> r.stars <= m.value) && exists r :: r in rows && r.stars == m.value
    decreases |rows|
  {
    if rows == [] then None
    else
      var rest := MaxStars(rows[1..]);
      FirstRest(rows);
      if rest.None? || rows[0].stars >= rest.value then Some(rows[0].stars) else rest
  }

  /** A line of `top_buyers`: an owner and the number of rows naming it as `new_owner`. */
  datatype BuyerCount = BuyerCount(newOwner: string, count: nat)

  function Count(b: BuyerCount): int {
    b.count
  }

  /** `GROUP BY new_owner`: one line per different owner, in order of first appearance. */
  function Groups(rows: seq<Row>): seq<BuyerCount> {
    var buyers := Buyers(rows);
    var owners := Dedup(buyers);
    seq(|owners|, i requires 0 <= i < |owners| => BuyerCount(owners[i], multiset(buyers)[owners[i]]))
  }

  /** `SELECT new_owner, COUNT(*) ... GROUP BY new_owner ORDER BY count DESC LIMIT 10`. */
  function TopBuyers(rows: seq<Row>): seq<BuyerCount> {
    var sorted := SortDesc(Groups(rows), Count);
    if |sorted| <= 10 then sorted else sorted[..10]
  }

  /** The dictionary `get_stats` returns, without the floating-point `avg_stars`. */
  datatype Stats = Stats(
    totalTransfers: nat,
    uniqueBuyers: nat,
    uniqueSellers: nat,
    maxStars: Option<int>,
    topBuyers: seq<BuyerCount>)

  /** The transfer store of one RepoRadar process. */
  class RepoRadarDB {
    var rows: seq<Row>

    ghost predicate Valid()
      reads this
    {
      UniqueKeys(rows)
    }

    /** Opens the table, which already holds `existing` (empty when `CREATE TABLE IF NOT EXISTS` creates it). */
    constructor (existing: seq<Row>)
      requires UniqueKeys(existing)
      ensures Valid() && rows == existing
    {
      rows := existing;
    }

    /**
     * `add_transfer`: `INSERT OR IGNORE` of one row stamped with the
     * database clock `now`; reports success whether it inserted or ignored.
     */
    method AddTransfer(now: int, repo: string, oldOwner: string, newOwner: string, date: int,
                       stars: int := 0, language: Option<string> := None)
      returns (ok: bool)
      requires Valid()
      modifies this
      ensures Valid()
      ensures rows == InsertOrIgnore(old(rows), Row(repo, oldOwner, newOwner, date, stars, language, now))
      ensures ok
    {
      var row := Row(repo, oldOwner, newOwner, date, stars, language, now);
      InsertKeepsKeysUnique(rows, row);
      rows := InsertOrIgnore(rows, row);
      ok := true;
    }

    /**
     * `get_transfers(limit)`: at most `limit` rows of the table (all of them
     * for a negative limit), newest first, and no row left out is newer than
     * one returned.
     */
    function GetTransfers(limit: int := 100): (result: seq<Row>)
      reads this
      ensures |result| == if 0 <= limit < |rows| then limit else |rows|
      ensures SortedDesc(result, CreatedAt)
      ensures multiset(result) <= multiset(rows)
      ensures forall x, y :: x in rows && x !in result && y in result ==> x.createdAt <= y.createdAt
    {
      var sorted := SortDesc(rows, CreatedAt);
      SortDescSpec(rows, CreatedAt);
      assert |sorted| == |rows| by {
        assert |multiset(sorted)| == |multiset(rows)|;
      }
      var k := if limit < 0 || limit >= |sorted| then |sorted| else limit;
      assert sorted[..k] == Newest(rows, limit);
      SortedPrefixIsTop(sorted, CreatedAt, k);
      TakeDrop(sorted, k);
      forall x | x in rows && x !in sorted[..k]
        ensures x in sorted[k..]
      {
        assert x in multiset(sorted);
      }
      Newest(rows, limit)
    }

    /**
     * `get_stats()`: the row count, the numbers of different new and old
     * owners, the largest star count and the ten most frequent new owners.
     */
    function GetStats(): (s: Stats)
      reads this
      ensures s.totalTransfers == |rows|
      ensures s.uniqueBuyers == |set r | r in rows :: r.newOwner|
      ensures s.uniqueSellers == |set r | r in rows :: r.oldOwner|
      ensures s.maxStars == MaxStars(rows)
      ensures s.topBuyers == TopBuyers(rows)
    {
      assert (set x | x in Buyers(rows)) == (set r | r in rows :: r.newOwner) by {
        forall o | o in (set r | r in rows :: r.newOwner)
          ensures o in Buyers(rows)
        {
          var i :| 0 <= i < |rows| && rows[i].newOwner == o;
          assert Buyers(rows)[i] == o;
        }
      }
      assert (set x | x in Sellers(rows)) == (set r | r in rows :: r.oldOwner) by {
        forall o | o in (set r | r in rows :: r.oldOwner)
          ensures o in Sellers(rows)
        {
          var i :| 0 <= i < |rows| && rows[i].oldOwner == o;
          assert Sellers(rows)[i] == o;
        }
      }
      Stats(|rows|, CountDistinct(Buyers(rows)), CountDistinct(Sellers(rows)), MaxStars(rows), TopBuyers(rows))
    }
  }

  /** The groups name each owner once, with its row count. */
  lemma GroupsSpec(rows: seq<Row>)
    ensures var groups := Groups(rows);
      && (forall i, j :: 0 <= i < j < |groups| ==> groups[i].newOwner != groups[j].newOwner)
      && (forall g :: g in groups ==> g.count == multiset(Buyers(rows))[g.newOwner] && g.newOwner in Buyers(rows))
      && (forall o :: o in Buyers(rows) ==> exists g :: g in groups && g.newOwner == o)
  {
    var buyers := Buyers(rows);
    DedupSpec(buyers);
    var groups := Groups(rows);
    forall o | o in buyers
      ensures exists g :: g in groups && g.newOwner == o
    {
      var i :| 0 <= i < |Dedup(buyers)| && Dedup(buyers)[i] == o;
      assert groups[i] in groups;
    }
  }

  lemma {:induction false} SortedGroups(rows: seq<Row>)
    ensures var sorted := SortDesc(Groups(rows), Count);
      && SortedDesc(sorted, Count)
      && |sorted| == |Groups(rows)|
      && (forall g :: g in sorted <==> g in Groups(rows))
      && (forall i, j :: 0 <= i < j < |sorted| ==> sorted[i].newOwner != sorted[j].newOwner)
  {
    var groups := Groups(rows);
    var sorted := SortDesc(groups, Count);
    SortDescSpec(groups, Count);
    GroupsSpec(rows);
    assert |sorted| == |groups| by {
      assert |multiset(sorted)| == |multiset(groups)|;
    }
    forall g
      ensures g in sorted <==> g in groups
    {
      assert g in sorted <==> g in multiset(sorted);
    }
    forall i, j | 0 <= i < j < |sorted|
      ensures sorted[i].newOwner != sorted[j].newOwner
    {
      SortedDistinctOwners(groups, sorted, i, j);
    }
  }

  /**
   * `top_buyers` lists at most ten different owners, each with its true row
   * count (so at least one), most frequent first.
   */
  lemma TopBuyersCounts(rows: seq<Row>)
    ensures var top := TopBuyers(rows);
      && |top| <= 10
      && (forall i, j :: 0 <= i < j < |top| ==> top[i].newOwner != top[j].newOwner)
      && (forall b :: b in top ==> b.count == multiset(Buyers(rows))[b.newOwner] && b.count > 0)
      && SortedDesc(top, Count)
  {
    SortedGroups(rows);
    GroupsSpec(rows);
    var sorted := SortDesc(Groups(rows), Count);
    var top := TopBuyers(rows);
    var k := |top|;
    assert top == sorted[..k];
    forall i, j | 0 <= i < j < k
      ensures top[i].newOwner != top[j].newOwner && Count(top[i]) >= Count(top[j])
    {
      assert top[i] == sorted[i] && top[j] == sorted[j];
    }
    forall b | b in top
      ensures b.count == multiset(Buyers(rows))[b.newOwner] && b.count > 0
    {
      assert b in sorted;
      assert b in Groups(rows);
      assert multiset(Buyers(rows))[b.newOwner] > 0;
    }
  }

  /**
   * An owner missing from `top_buyers` is no more frequent than any listed
   * one, and with fewer than ten listed no owner is missing.
   */
  lemma TopBuyersComplete(rows: seq<Row>)
    ensures var top := TopBuyers(rows);
      && (forall b, o :: b in top && o in Buyers(rows) && (forall c :: c in top ==> c.newOwner != o) ==>
            multiset(Buyers(rows))[o] <= b.count)
      && (|top| < 10 ==> forall o :: o in Buyers(rows) ==> exists c :: c in top && c.newOwner == o)
  {
    SortedGroups(rows);
    GroupsSpec(rows);
    var sorted := SortDesc(Groups(rows), Count);
    var top := TopBuyers(rows);
    var k := |top|;
    assert top == sorted[..k];
    SortedPrefixIsTop(sorted, Count, k);
    TakeDrop(sorted, k);
    forall b, o | b in top && o in Buyers(rows) && (forall c :: c in top ==> c.newOwner != o)
      ensures multiset(Buyers(rows))[o] <= b.count
    {
      var g :| g in Groups(rows) && g.newOwner == o;
      assert g in sorted && g !in top;
      assert g in sorted[k..];
    }
  }

  /** Two positions of the sorted groups name different owners. */
  lemma SortedDistinctOwners(groups: seq<BuyerCount>, sorted: seq<BuyerCount>, i: nat, j: nat)
    requires forall p, q :: 0 <= p < q < |groups| ==> groups[p].newOwner != groups[q].newOwner
    requires multiset(sorted) == multiset(groups)
    requires i < j < |sorted|
    ensures sorted[i].newOwner != sorted[j].newOwner
  {
    assert sorted[i] in multiset(groups) && sorted[j] in multiset(groups);
    var p :| 0 <= p < |groups| && groups[p] == sorted[i];
    var q :| 0 <= q < |groups| && groups[q] == sorted[j];
    if p == q {
      // the same group would have to occur twice in the sorted list
      var m := multiset(sorted);
      assert sorted == sorted[..j] + [sorted[j]] + sorted[j + 1..];
      assert sorted[i] in sorted[..j];
      assert multiset(sorted)[groups[p]] >= 2;
      DistinctGroupsOnce(groups, p);
      assert false;
    }
  }

  lemma DistinctGroupsOnce(groups: seq<BuyerCount>, p: nat)
    requires forall p, q :: 0 <= p < q < |groups| ==> groups[p].newOwner != groups[q].newOwner
    requires p < |groups|
    ensures multiset(groups)[groups[p]] == 1
  {
    var rest := groups[..p] + groups[p + 1..];
    assert groups == groups[..p] + [groups[p]] + groups[p + 1..];
    assert groups[p] !in rest by {
      forall q | 0 <= q < |rest| ensures rest[q] != groups[p] {
        if q < p {
          assert rest[q] == groups[q];
        } else {
          assert rest[q] == groups[q + 1];
        }
      }
    }
    assert multiset(groups) == multiset(rest) + multiset{groups[p]};
  }
}
