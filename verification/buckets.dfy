/** The per-year dictionary from state code to that state's cleaned rows.
    Python dictionaries remember insertion order, and the summary rows come
    out in that order, so the dictionary is an association list.
 */
module StateBuckets {
  import opened Cleaning

  /** One dictionary entry: a state code and its rows, oldest first. */
  datatype Bucket = Bucket(state: string, rows: seq<Row>)

  /** Entries in key-insertion order. */
  type Buckets = seq<Bucket>

  /** The keys, in insertion order. */
  function Keys(b: Buckets): (ks: seq<string>)
    ensures |ks| == |b|
    ensures forall i :: 0 <= i < |b| ==> ks[i] == b[i].state
  {
    seq(|b|, i requires 0 <= i < |b| => b[i].state)
  }

  /** The representation invariant: no key twice, and no entry without rows
      (an entry is only ever created holding its first row). */
  predicate Valid(b: Buckets) {
    && (forall i, j :: 0 <= i < j < |b| ==> b[i].state != b[j].state)
    && (forall i :: 0 <= i < |b| ==> b[i].rows != [])
  }

  /** The position of the first entry for `key`, or `|b|` when there is none. */
  function Find(b: Buckets, key: string): (i: nat)
    ensures i <= |b|
    ensures i < |b| ==> b[i].state == key
    ensures forall j :: 0 <= j < i ==> b[j].state != key
    decreases |b|
  {
    if |b| == 0 then 0
    else if b[0].state == key then 0
    else 1 + Find(b[1..], key)
  }

  /** `Find` gives the first entry for the key, wherever it is. */
  lemma {:induction false} FindFirst(b: Buckets, key: string, i: nat)
    requires i < |b| && b[i].state == key
    requires forall j :: 0 <= j < i ==> b[j].state != key
    ensures Find(b, key) == i
    decreases i
  {
    if i > 0 {
      FindFirst(b[1..], key, i - 1);
    }
  }

  /** A key is present exactly when `Find` lands on an entry. */
  lemma FindKeys(b: Buckets, key: string)
    ensures key in Keys(b) <==> Find(b, key) < |b|
  {
    if key in Keys(b) {
      var j :| 0 <= j < |b| && Keys(b)[j] == key;
      assert b[j].state == key;
    }
  }

  /** `d.get(key, [])`: the rows stored under `key`. */
  function Lookup(b: Buckets, key: string): seq<Row> {
    var i := Find(b, key);
    if i < |b| then b[i].rows else []
  }

  /** In a valid dictionary the rows under a present key are those of its
      entry, and a key is present exactly when it has rows. */
  lemma LookupValid(b: Buckets, key: string)
    requires Valid(b)
    ensures forall i :: 0 <= i < |b| && b[i].state == key ==> Lookup(b, key) == b[i].rows
    ensures key in Keys(b) <==> Lookup(b, key) != []
  {
    FindKeys(b, key);
  }

  /** `d[key] = [row]` when the key is new, `d[key].append(row)` otherwise. */
  function Insert(b: Buckets, key: string, row: Row): (r: Buckets)
    requires Valid(b)
    ensures Valid(r)
    ensures Keys(r) == if key in Keys(b) then Keys(b) else Keys(b) + [key]
  {
    var i := Find(b, key);
    FindKeys(b, key);
    if i < |b| then
      var r := b[i := Bucket(key, b[i].rows + [row])];
      assert Keys(r) == Keys(b);
      r
    else
      var r := b + [Bucket(key, [row])];
      assert Keys(r) == Keys(b) + [key];
      r
  }

  /** The dictionary after `rows` are added under `key`, described at once:
      the key's entry has them at the end of its rows, or, for a new key, a
      new entry holding them goes after all others. */
  function Appended(b: Buckets, key: string, rows: seq<Row>): seq<Bucket> {
    var i := Find(b, key);
    if rows == [] then b
    else if i < |b| then b[i := Bucket(key, b[i].rows + rows)]
    else b + [Bucket(key, rows)]
  }

  /** Insertion seen through `Lookup`: the row goes at the end of the key's
      rows, and every other key keeps its rows. */
  lemma InsertLookup(b: Buckets, key: string, row: Row, k: string)
    requires Valid(b)
    ensures Lookup(Insert(b, key, row), k) == Lookup(b, k) + (if k == key then [row] else [])
  {
    InsertAllLookup(b, key, [row], k);
  }

  /** The rows of one station file added one after another under its code. */
  function InsertAll(b: Buckets, key: string, rows: seq<Row>): (r: Buckets)
    requires Valid(b)
    ensures Valid(r)
    ensures Keys(r) == if rows == [] || key in Keys(b) then Keys(b) else Keys(b) + [key]
    decreases |rows|
  {
    if |rows| == 0 then b
    else
      var b' := Insert(b, key, rows[0]);
      assert key in Keys(b') by {
        if key !in Keys(b) {
          assert Keys(b')[|b|] == key;
        }
      }
      InsertAll(b', key, rows[1..])
  }

  /** Adding the rows one at a time is adding them all at once. */
  lemma {:induction false} InsertAllAppended(b: Buckets, key: string, rows: seq<Row>)
    requires Valid(b)
    ensures InsertAll(b, key, rows) == Appended(b, key, rows)
    decreases |rows|
  {
    if |rows| > 0 {
      var b' := Insert(b, key, rows[0]);
      var rest := rows[1..];
      assert InsertAll(b, key, rows) == InsertAll(b', key, rest);
      InsertAllAppended(b', key, rest);
      AppendedStep(b, key, rows[0], rest);
      assert rows == [rows[0]] + rest;
    }
  }

  /** One insertion followed by the remaining rows at once is all rows at once. */
  lemma AppendedStep(b: Buckets, key: string, row: Row, rest: seq<Row>)
    requires Valid(b)
    ensures Appended(Insert(b, key, row), key, rest) == Appended(b, key, [row] + rest)
  {
    var i := Find(b, key);
    if i < |b| {
      assert Insert(b, key, row) == b[i := Bucket(key, b[i].rows + [row])];
      AppendedExisting(b, key, row, rest);
    } else {
      assert Insert(b, key, row) == b + [Bucket(key, [row])];
      AppendedNew(b, key, row, rest);
    }
  }

  /** `AppendedStep` for a key that has an entry. */
  lemma AppendedExisting(b: Buckets, key: string, row: Row, rest: seq<Row>)
    requires Find(b, key) < |b|
    ensures var i := Find(b, key);
            Appended(b[i := Bucket(key, b[i].rows + [row])], key, rest) == Appended(b, key, [row] + rest)
  {
    var i := Find(b, key);
    var b' := b[i := Bucket(key, b[i].rows + [row])];
    FindFirst(b', key, i);
    if rest == [] {
      assert [row] + rest == [row];
    } else {
      assert b[i].rows + [row] + rest == b[i].rows + ([row] + rest);
      assert b'[i := Bucket(key, b'[i].rows + rest)] == b[i := Bucket(key, b[i].rows + ([row] + rest))];
    }
  }

  /** `AppendedStep` for a key that has no entry yet. */
  lemma AppendedNew(b: Buckets, key: string, row: Row, rest: seq<Row>)
    requires Find(b, key) == |b|
    ensures Appended(b + [Bucket(key, [row])], key, rest) == Appended(b, key, [row] + rest)
  {
    var b' := b + [Bucket(key, [row])];
    FindFirst(b', key, |b|);
    if rest == [] {
      assert [row] + rest == [row];
    } else {
      assert b'[|b| := Bucket(key, [row] + rest)] == b + [Bucket(key, [row] + rest)];
    }
  }

  /** Adding a file's rows seen through `Lookup`: they go, in order, at the
      end of the key's rows, and every other key keeps its rows. */
  lemma InsertAllLookup(b: Buckets, key: string, rows: seq<Row>, k: string)
    requires Valid(b)
    ensures Lookup(InsertAll(b, key, rows), k) == Lookup(b, k) + (if k == key then rows else [])
  {
    InsertAllAppended(b, key, rows);
    var r := InsertAll(b, key, rows);
    var i := Find(b, k);
    if rows != [] {
      if i < |b| {
        LookupValid(r, k);
      } else if k == key {
        LookupValid(r, k);
        assert r[|b|].state == k;
      } else {
        assert Find(r, k) == |r|;
      }
    }
  }
}
