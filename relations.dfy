/** Database tables as sequences of rows in scan order, and the three table
    patterns the share provider uses: a key no two rows share, select-then-insert
    on such a key, and an inner join from a link table to a row table. */
module Relations {
  import opened Results
  import opened Seqs

  /** No two rows of the table have the same key. */
  ghost predicate DistinctKeys<T, K>(rows: seq<T>, key: T -> K) {
    forall i, j :: 0 <= i < j < |rows| ==> key(rows[i]) != key(rows[j])
  }

  /** A `DELETE ... WHERE` keeps a key unique. */
  lemma {:induction false} FilterKeepsKeysDistinct<T(!new), K>(rows: seq<T>, key: T -> K, keep: T -> bool)
    requires DistinctKeys(rows, key)
    ensures DistinctKeys(Filter(rows, keep), key)
  {
    if rows != [] {
      FilterKeepsKeysDistinct(rows[1..], key, keep);
      var rest := Filter(rows[1..], keep);
      forall x | x in rest ensures key(x) != key(rows[0]) {
        var j :| 0 <= j < |rows[1..]| && rows[1..][j] == x;
        assert rows[j + 1] == x;
      }
      if keep(rows[0]) {
        var r := [rows[0]] + rest;
        forall i, j | 0 <= i < j < |r| ensures key(r[i]) != key(r[j]) {
          if i == 0 {
            assert r[j] in rest;
          } else {
            assert r[i] == rest[i - 1] && r[j] == rest[j - 1];
          }
        }
      }
    }
  }

  /** An `UPDATE` that leaves the key of every row as it was keeps the key unique. */
  lemma MapKeepsKeysDistinct<T, K>(rows: seq<T>, key: T -> K, f: T -> T)
    requires DistinctKeys(rows, key)
    requires forall x :: key(f(x)) == key(x)
    ensures DistinctKeys(Map(rows, f), key)
  {
    var r := Map(rows, f);
    forall i, j | 0 <= i < j < |r| ensures key(r[i]) != key(r[j]) {
      assert key(r[i]) == key(rows[i]) && key(r[j]) == key(rows[j]);
    }
  }

  /** The table, the next auto-increment id and the id returned, after a
      select-then-insert. */
  datatype Inserted<T> = Inserted(rows: seq<T>, nextId: nat, id: nat)

  /** Select-then-insert: the id of the first row that `matches`, or else
      `newRow` appended under the next auto-increment id. */
  function InsertOrFetch<T>(rows: seq<T>, nextId: nat, matches: T -> bool, idOf: T -> nat, newRow: T): (r: Inserted<T>)
    ensures (exists i :: 0 <= i < |rows| && matches(rows[i])) ==>
      && r.rows == rows && r.nextId == nextId
      && exists i :: 0 <= i < |rows| && matches(rows[i]) && r.id == idOf(rows[i])
    ensures (forall i :: 0 <= i < |rows| ==> !matches(rows[i])) ==>
      r == Inserted(rows + [newRow], nextId + 1, nextId)
    ensures matches(newRow) && idOf(newRow) == nextId ==>
      exists k :: 0 <= k < |r.rows| && matches(r.rows[k]) && idOf(r.rows[k]) == r.id
  {
    match FirstWhere(rows, matches)
    case Some(k) => Inserted(rows, nextId, idOf(rows[k]))
    case None =>
      var r := Inserted(rows + [newRow], nextId + 1, nextId);
      assert r.rows[|rows|] == newRow;
      r
  }

  /** Calling select-then-insert a second time with the same key returns the
      same id and leaves the table as the first call left it. */
  lemma InsertOrFetchTwice<T>(rows: seq<T>, nextId: nat, matches: T -> bool, idOf: T -> nat, newRow: T, again: T)
    requires matches(newRow) && idOf(newRow) == nextId
    ensures var r := InsertOrFetch(rows, nextId, matches, idOf, newRow);
      InsertOrFetch(r.rows, r.nextId, matches, idOf, again) == r
  {
    var r := InsertOrFetch(rows, nextId, matches, idOf, newRow);
    if FirstWhere(rows, matches).None? {
      var k := FirstWhere(r.rows, matches);
      assert r.rows[|rows|] == newRow;
      assert k.Some? && k.value == |rows|;
    }
  }

  /** Select-then-insert on a key keeps that key unique. */
  lemma InsertOrFetchKeepsKeysDistinct<T, K>(
    rows: seq<T>, nextId: nat, matches: T -> bool, idOf: T -> nat, newRow: T, key: T -> K)
    requires DistinctKeys(rows, key)
    requires forall x :: matches(x) <==> key(x) == key(newRow)
    ensures DistinctKeys(InsertOrFetch(rows, nextId, matches, idOf, newRow).rows, key)
  {
    var r := InsertOrFetch(rows, nextId, matches, idOf, newRow);
    if FirstWhere(rows, matches).None? {
      forall i, j | 0 <= i < j < |r.rows| ensures key(r.rows[i]) != key(r.rows[j]) {
        if j == |rows| {
          assert !matches(rows[i]);
        }
      }
    }
  }

  /** Appending a row under the next auto-increment id keeps every id below the
      counter and no two ids equal. */
  lemma AppendFreshId<T>(rows: seq<T>, nextId: nat, idOf: T -> nat, newRow: T)
    requires forall x :: x in rows ==> idOf(x) < nextId
    requires DistinctKeys(rows, idOf)
    requires idOf(newRow) == nextId
    ensures forall x :: x in rows + [newRow] ==> idOf(x) < nextId + 1
    ensures DistinctKeys(rows + [newRow], idOf)
  {
    var r := rows + [newRow];
    forall i, j | 0 <= i < j < |r| ensures idOf(r[i]) != idOf(r[j]) {
      if j == |rows| {
        assert r[i] in rows;
      }
    }
  }

  /** `INNER JOIN rows ON link = id`, walking the links in order: the first row
      whose id is one of the links. */
  function FirstJoin<T>(links: seq<nat>, rows: seq<T>, idOf: T -> nat): (r: Option<T>)
    ensures r.Some? ==> r.value in rows && idOf(r.value) in links
    ensures r.None? <==> forall i, j :: 0 <= i < |links| && 0 <= j < |rows| ==> idOf(rows[j]) != links[i]
  {
    if links == [] then None
    else match FirstWhere(rows, (x: T) => idOf(x) == links[0])
      case Some(k) => Some(rows[k])
      case None =>
        var r := FirstJoin(links[1..], rows, idOf);
        assert forall i :: 0 < i < |links| ==> links[i] == links[1..][i - 1];
        r
  }

  /** A join over links that all name one id finds the row carrying it, when ids are unique. */
  lemma FirstJoinOfOneId<T>(links: seq<nat>, rows: seq<T>, idOf: T -> nat, row: T)
    requires DistinctKeys(rows, idOf)
    requires row in rows && idOf(row) in links
    requires forall f :: f in links ==> f == idOf(row)
    ensures FirstJoin(links, rows, idOf) == Some(row)
  {
    var r := FirstJoin(links, rows, idOf);
    var i :| 0 <= i < |rows| && rows[i] == row;
    var l :| 0 <= l < |links| && links[l] == idOf(row);
    assert r.Some?;
    var j :| 0 <= j < |rows| && rows[j] == r.value;
    assert idOf(rows[j]) == idOf(rows[i]);
  }
}
