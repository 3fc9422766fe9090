/**
 The contents of the hash dictionary (src/common/dictionary.c) as values: rows of entries,
 one row for each bucket, and the finite map they stand for.
 */
module DictionarySpec {
  import opened Common

  type Bytes = seq<bv8>

  datatype Entry<K> = Entry(key: K, value: Bytes)

  type Rows<K> = seq<seq<Entry<K>>>

  /** The place of a key in its row, or the length of the row. */
  function Position<K(==)>(row: seq<Entry<K>>, key: K): (k: nat)
    ensures k <= |row| && (forall i :: 0 <= i < k ==> row[i].key != key)
    ensures k < |row| ==> row[k].key == key
  {
    if row == [] || row[0].key == key then 0 else 1 + Position(row[1..], key)
  }

  function Find<K(==)>(row: seq<Entry<K>>, key: K): Option<Bytes> {
    var k := Position(row, key);
    if k < |row| then Some(row[k].value) else None
  }

  /** What a search of the row of the key's hash value finds. */
  function Lookup<K(==)>(rows: Rows<K>, hash: K -> nat, key: K): Option<Bytes> {
    if hash(key) < |rows| then Find(rows[hash(key)], key) else None
  }

  ghost predicate NoKeyTwice<K>(row: seq<Entry<K>>) {
    forall i, j :: 0 <= i < j < |row| ==> row[i].key != row[j].key
  }

  /** A row holds entries of its own hash value only, and no key twice. */
  ghost predicate RowOk<K>(row: seq<Entry<K>>, hash: K -> nat, b: nat) {
    NoKeyTwice(row) && forall i :: 0 <= i < |row| ==> hash(row[i].key) == b
  }

  ghost predicate RowsOk<K>(rows: Rows<K>, hash: K -> nat) {
    forall b :: 0 <= b < |rows| ==> RowOk(rows[b], hash, b)
  }

  function RowKeys<K(==)>(row: seq<Entry<K>>): set<K> {
    set i | 0 <= i < |row| :: row[i].key
  }

  function AllKeys<K(==)>(rows: Rows<K>): set<K> {
    if rows == [] then {} else AllKeys(rows[..|rows| - 1]) + RowKeys(rows[|rows| - 1])
  }

  /** The finite map that the rows stand for: of each entry its key and value. */
  function MapOf<K(==)>(rows: Rows<K>, hash: K -> nat): map<K, Bytes> {
    map key | key in AllKeys(rows) :: var found := Lookup(rows, hash, key); if found.Some? then found.value else []
  }

  function Get<K(==)>(m: map<K, Bytes>, key: K): Option<Bytes> {
    if key in m then Some(m[key]) else None
  }

  /** The sum of the lengths of the rows. */
  function Size<K>(rows: Rows<K>): nat {
    if rows == [] then 0 else Size(rows[..|rows| - 1]) + |rows[|rows| - 1]|
  }

  lemma {:induction false} KeyInSomeRow<K>(rows: Rows<K>, key: K)
    ensures key in AllKeys(rows) <==> exists b :: 0 <= b < |rows| && key in RowKeys(rows[b])
  {
    if rows != [] {
      var n := |rows| - 1;
      KeyInSomeRow(rows[..n], key);
      if b :| 0 <= b < |rows| && key in RowKeys(rows[b]) {
        assert b < n ==> rows[..n][b] == rows[b];
      }
      if key in AllKeys(rows[..n]) {
        var b :| 0 <= b < n && key in RowKeys(rows[..n][b]);
        assert rows[b] == rows[..n][b];
      }
    }
  }

  lemma RowHasKey<K>(row: seq<Entry<K>>, key: K)
    ensures key in RowKeys(row) <==> Find(row, key).Some?
  {
    if Position(row, key) < |row| {
      assert row[Position(row, key)].key in RowKeys(row);
    }
  }

  /** A search of the one row of the key's hash value finds what the map has. */
  lemma LookupIsMap<K>(rows: Rows<K>, hash: K -> nat, key: K)
    requires RowsOk(rows, hash)
    ensures Lookup(rows, hash, key) == Get(MapOf(rows, hash), key)
  {
    KeyInSomeRow(rows, key);
    if hash(key) < |rows| {
      RowHasKey(rows[hash(key)], key);
    }
    if b :| 0 <= b < |rows| && key in RowKeys(rows[b]) {
      OfItsRow(rows[b], hash, b, key);
    }
  }

  lemma OfItsRow<K>(row: seq<Entry<K>>, hash: K -> nat, b: nat, key: K)
    requires RowOk(row, hash, b) && key in RowKeys(row)
    ensures hash(key) == b
  {
  }

  lemma MapFromLookups<K(!new)>(rows: Rows<K>, hash: K -> nat, m: map<K, Bytes>)
    requires RowsOk(rows, hash) && forall key :: Lookup(rows, hash, key) == Get(m, key)
    ensures MapOf(rows, hash) == m
  {
    forall key ensures Get(MapOf(rows, hash), key) == Get(m, key) {
      LookupIsMap(rows, hash, key);
    }
    SameMap(MapOf(rows, hash), m);
  }

  lemma SameMap<K(!new)>(a: map<K, Bytes>, b: map<K, Bytes>)
    requires forall key :: Get(a, key) == Get(b, key)
    ensures a == b
  {
    forall key ensures (key in a <==> key in b) && (key in a ==> a[key] == b[key]) {
      assert Get(a, key) == Get(b, key);
    }
  }

  // ----- Changes of one row

  lemma {:induction false} RowReplacedSize<K>(rows: Rows<K>, b: nat, row: seq<Entry<K>>)
    requires b < |rows|
    ensures Size(rows[b := row]) == Size(rows) - |rows[b]| + |row|
  {
    var n := |rows| - 1;
    if b < n {
      RowReplacedSize(rows[..n], b, row);
      assert rows[b := row][..n] == rows[..n][b := row];
    } else {
      assert rows[b := row][..n] == rows[..n];
    }
  }

  lemma RowReplacedOk<K>(rows: Rows<K>, hash: K -> nat, b: nat, row: seq<Entry<K>>)
    requires RowsOk(rows, hash) && b < |rows| && RowOk(row, hash, b)
    ensures RowsOk(rows[b := row], hash) && Size(rows[b := row]) == Size(rows) - |rows[b]| + |row|
  {
    RowReplacedSize(rows, b, row);
  }

  lemma InsertedRow<K>(row: seq<Entry<K>>, hash: K -> nat, b: nat, e: Entry<K>)
    requires RowOk(row, hash, b) && hash(e.key) == b && Find(row, e.key) == None
    ensures RowOk([e] + row, hash, b)
  {
  }

  lemma FindInserted<K>(row: seq<Entry<K>>, e: Entry<K>, key: K)
    ensures Find([e] + row, key) == if key == e.key then Some(e.value) else Find(row, key)
  {
    assert ([e] + row)[1..] == row;
  }

  /** A new entry at the front of the row of its key. */
  lemma InsertIsUpdate<K(!new)>(rows: Rows<K>, hash: K -> nat, e: Entry<K>)
    requires RowsOk(rows, hash) && hash(e.key) < |rows| && Lookup(rows, hash, e.key) == None
    ensures var b := hash(e.key); var rows' := rows[b := [e] + rows[b]];
            && RowsOk(rows', hash) && Size(rows') == Size(rows) + 1
            && MapOf(rows', hash) == MapOf(rows, hash)[e.key := e.value]
  {
    var b := hash(e.key);
    var rows' := rows[b := [e] + rows[b]];
    InsertedRow(rows[b], hash, b, e);
    RowReplacedOk(rows, hash, b, [e] + rows[b]);
    forall key ensures Lookup(rows', hash, key) == Get(MapOf(rows, hash)[e.key := e.value], key) {
      FindInserted(rows[b], e, key);
      LookupIsMap(rows, hash, key);
    }
    MapFromLookups(rows', hash, MapOf(rows, hash)[e.key := e.value]);
  }

  function WithoutAt<T>(s: seq<T>, k: nat): (r: seq<T>)
    requires k < |s|
    ensures |r| == |s| - 1 && forall i :: 0 <= i < |r| ==> r[i] == s[if i < k then i else i + 1]
  {
    s[..k] + s[k + 1..]
  }

  lemma RemovedRow<K>(row: seq<Entry<K>>, hash: K -> nat, b: nat, k: nat)
    requires RowOk(row, hash, b) && k < |row|
    ensures RowOk(WithoutAt(row, k), hash, b)
  {
  }

  lemma Tail<K>(row: seq<Entry<K>>, k: nat)
    requires k < |row| && NoKeyTwice(row)
    ensures NoKeyTwice(row[1..]) && row == [row[0]] + row[1..] && (k > 0 ==> row[0].key != row[k].key)
    ensures WithoutAt(row, k) == if k == 0 then row[1..] else [row[0]] + WithoutAt(row[1..], k - 1)
    ensures Find(row[1..], row[0].key) == None
  {
  }

  lemma {:induction false} FindRemoved<K>(row: seq<Entry<K>>, k: nat, key: K)
    requires k < |row| && NoKeyTwice(row)
    ensures Find(WithoutAt(row, k), key) == if key == row[k].key then None else Find(row, key)
  {
    Tail(row, k);
    FindInserted(row[1..], row[0], key);
    if k > 0 {
      FindRemoved(row[1..], k - 1, key);
      FindInserted(WithoutAt(row[1..], k - 1), row[0], key);
    }
  }

  /** The entry k leaves the row b. */
  lemma RemoveIsMinus<K(!new)>(rows: Rows<K>, hash: K -> nat, b: nat, k: nat)
    requires RowsOk(rows, hash) && b < |rows| && k < |rows[b]|
    ensures var rows' := rows[b := WithoutAt(rows[b], k)];
            && RowsOk(rows', hash) && Size(rows') == Size(rows) - 1
            && MapOf(rows', hash) == MapOf(rows, hash) - {rows[b][k].key}
  {
    var gone := rows[b][k].key;
    var rows' := rows[b := WithoutAt(rows[b], k)];
    assert RowOk(rows[b], hash, b);
    RemovedRow(rows[b], hash, b, k);
    RowReplacedOk(rows, hash, b, WithoutAt(rows[b], k));
    forall key ensures Lookup(rows', hash, key) == Get(MapOf(rows, hash) - {gone}, key) {
      FindRemoved(rows[b], k, key);
      LookupIsMap(rows, hash, key);
    }
    MapFromLookups(rows', hash, MapOf(rows, hash) - {gone});
  }

  lemma SetRow<K>(row: seq<Entry<K>>, hash: K -> nat, b: nat, k: nat, value: Bytes)
    requires RowOk(row, hash, b) && k < |row|
    ensures RowOk(row[k := Entry(row[k].key, value)], hash, b)
  {
  }

  lemma {:induction false} FindSet<K>(row: seq<Entry<K>>, k: nat, value: Bytes, key: K)
    requires k < |row| && NoKeyTwice(row)
    ensures Find(row[k := Entry(row[k].key, value)], key) == if key == row[k].key then Some(value) else Find(row, key)
  {
    var row' := row[k := Entry(row[k].key, value)];
    if k > 0 {
      FindSet(row[1..], k - 1, value, key);
      assert row'[1..] == row[1..][k - 1 := Entry(row[k].key, value)];
    } else {
      assert row'[1..] == row[1..];
    }
  }

  /** The entry k of the row b gets another value. */
  lemma SetIsUpdate<K(!new)>(rows: Rows<K>, hash: K -> nat, b: nat, k: nat, value: Bytes)
    requires RowsOk(rows, hash) && b < |rows| && k < |rows[b]|
    ensures var rows' := rows[b := rows[b][k := Entry(rows[b][k].key, value)]];
            && RowsOk(rows', hash) && Size(rows') == Size(rows)
            && MapOf(rows', hash) == MapOf(rows, hash)[rows[b][k].key := value]
  {
    var set' := rows[b][k].key;
    var row := rows[b][k := Entry(set', value)];
    var rows' := rows[b := row];
    assert RowOk(rows[b], hash, b);
    SetRow(rows[b], hash, b, k, value);
    RowReplacedOk(rows, hash, b, row);
    forall key ensures Lookup(rows', hash, key) == Get(MapOf(rows, hash)[set' := value], key) {
      FindSet(rows[b], k, value, key);
      LookupIsMap(rows, hash, key);
    }
    MapFromLookups(rows', hash, MapOf(rows, hash)[set' := value]);
  }

  // ----- The count

  lemma {:induction false} RowKeysCount<K>(row: seq<Entry<K>>)
    requires NoKeyTwice(row)
    ensures |RowKeys(row)| == |row|
  {
    if row != [] {
      var n := |row| - 1;
      RowKeysCount(row[..n]);
      assert RowKeys(row) == RowKeys(row[..n]) + {row[n].key};
      assert row[n].key !in RowKeys(row[..n]);
    }
  }

  /** The sum of the row lengths is the number of keys of the map. */
  lemma {:induction false} SizeIsMapSize<K>(rows: Rows<K>, hash: K -> nat)
    requires RowsOk(rows, hash)
    ensures |MapOf(rows, hash)| == |AllKeys(rows)| == Size(rows)
  {
    assert MapOf(rows, hash).Keys == AllKeys(rows);
    if rows != [] {
      var n := |rows| - 1;
      SizeIsMapSize(rows[..n], hash);
      assert RowOk(rows[n], hash, n);
      RowKeysCount(rows[n]);
      forall key | key in RowKeys(rows[n]) ensures key !in AllKeys(rows[..n]) {
        OfItsRow(rows[n], hash, n, key);
        LookupIsMap(rows[..n], hash, key);
      }
    }
  }
}
