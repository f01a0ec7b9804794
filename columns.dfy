/** What `initTable` computes from the records: the column list, grown key by
    key with `isInColumns` as the duplicate test, and one row per record
    holding a synthetic `id` and the record's own entries. */
module Columns {
  import opened Values

  /** A record as `Object.entries` lists it: its keys with their values, in order. */
  type Record = seq<(string, Value)>

  predicate NoDuplicates(s: seq<string>) {
    forall i, j :: 0 <= i < j < |s| ==> s[i] != s[j]
  }

  /** The keys of a record, in entry order. */
  function Keys(rec: Record): (keys: seq<string>)
    ensures |keys| == |rec|
    ensures forall i :: 0 <= i < |rec| ==> keys[i] == rec[i].0
  {
    seq(|rec|, i requires 0 <= i < |rec| => rec[i].0)
  }

  /** Every record's keys, record after record. */
  function AllKeys(records: seq<Record>): seq<string> {
    if records == [] then []
    else AllKeys(records[..|records| - 1]) + Keys(records[|records| - 1])
  }

  /** One step of the load loop: push `key` unless `isInColumns(key)`. */
  function AddKey(columns: seq<string>, key: string): (r: seq<string>)
    ensures key in r && |columns| <= |r| <= |columns| + 1
  {
    if key in columns then columns else columns + [key]
  }

  /** The column list after the load loop has met `keys`, one by one. */
  function AddKeys(columns: seq<string>, keys: seq<string>): (r: seq<string>)
    ensures |columns| <= |r| <= |columns| + |keys|
  {
    if keys == [] then columns
    else AddKey(AddKeys(columns, keys[..|keys| - 1]), keys[|keys| - 1])
  }

  /** Meeting `a` and then `b` is meeting `a + b`. */
  lemma {:induction false} AddKeysAppend(columns: seq<string>, a: seq<string>, b: seq<string>)
    ensures AddKeys(AddKeys(columns, a), b) == AddKeys(columns, a + b)
    decreases |b|
  {
    if b == [] {
      assert a + b == a;
    } else {
      var init := b[..|b| - 1];
      AddKeysAppend(columns, a, init);
      assert (a + b)[..|a + b| - 1] == a + init;
    }
  }

  /** Position of the first occurrence of `x` in `s`. */
  function IndexOf(s: seq<string>, x: string): (k: nat)
    requires x in s
    ensures k < |s| && s[k] == x
    ensures forall j :: 0 <= j < k ==> s[j] != x
  {
    if s[0] == x then 0 else 1 + IndexOf(s[1..], x)
  }

  lemma IndexOfExtend(s: seq<string>, t: seq<string>, x: string)
    requires x in s
    ensures IndexOf(s + t, x) == IndexOf(s, x)
  {
    var k := IndexOf(s, x);
    assert (s + t)[k] == x;
  }

  /** Adding keys keeps the old columns as a prefix; afterwards the columns are
      exactly the old ones and the new keys, with no key twice if there was
      none before. */
  lemma {:induction false} AddKeysUnion(columns: seq<string>, keys: seq<string>)
    ensures |columns| <= |AddKeys(columns, keys)|
    ensures AddKeys(columns, keys)[..|columns|] == columns
    ensures forall x :: x in AddKeys(columns, keys) <==> x in columns || x in keys
    ensures NoDuplicates(columns) ==> NoDuplicates(AddKeys(columns, keys))
  {
    if keys != [] {
      var init := keys[..|keys| - 1];
      AddKeysUnion(columns, init);
      assert keys == init + [keys[|keys| - 1]];
    }
  }

  /** Every entry of `r` occurs in `s`, and entries of `r` are listed in the
      order of their first occurrence in `s`. */
  ghost predicate FirstSeenOrder(r: seq<string>, s: seq<string>) {
    (forall x :: x in r ==> x in s) &&
    forall p, q :: 0 <= p < q < |r| ==> IndexOf(s, r[p]) < IndexOf(s, r[q])
  }

  /** Meeting one more key keeps first-seen order: a key already listed is
      skipped, and a new one first occurs after everything met so far. */
  lemma FirstSeenOrderStep(r: seq<string>, s: seq<string>, k: string)
    requires FirstSeenOrder(r, s) && forall x :: x in s ==> x in r
    ensures FirstSeenOrder(AddKey(r, k), s + [k])
  {
    var r2 := AddKey(r, k);
    forall x | x in r ensures IndexOf(s + [k], x) == IndexOf(s, x) {
      IndexOfExtend(s, [k], x);
    }
    if k !in r {
      assert (s + [k])[|s|] == k;
      assert IndexOf(s + [k], k) == |s|;
      forall p, q | 0 <= p < q < |r2|
        ensures IndexOf(s + [k], r2[p]) < IndexOf(s + [k], r2[q])
      {
        if q < |r| {
          assert r2[p] == r[p] && r2[q] == r[q];
        } else {
          assert r2[p] == r[p];
        }
      }
    }
  }

  /** The columns come in first-seen order: of two columns, the one listed first
      occurs first in the old columns followed by the new keys. */
  lemma {:induction false} AddKeysFirstSeenOrder(columns: seq<string>, keys: seq<string>)
    requires NoDuplicates(columns)
    ensures FirstSeenOrder(AddKeys(columns, keys), columns + keys)
  {
    if keys == [] {
      assert columns + keys == columns;
      forall p, q | 0 <= p < q < |columns| ensures IndexOf(columns, columns[p]) < IndexOf(columns, columns[q]) {
        assert columns[p] != columns[q];
      }
    } else {
      var init := keys[..|keys| - 1];
      var k := keys[|keys| - 1];
      AddKeysFirstSeenOrder(columns, init);
      AddKeysUnion(columns, init);
      FirstSeenOrderStep(AddKeys(columns, init), columns + init, k);
      assert columns + keys == columns + init + [k];
    }
  }

  /** The row the loop builds from `base` by writing each entry in turn; a key
      listed twice keeps its last value, as repeated assignment does. */
  function Assign(base: Row, entries: Record): (row: Row)
    ensures base.Keys <= row.Keys
  {
    if entries == [] then base
    else
      var last := entries[|entries| - 1];
      Assign(base, entries[..|entries| - 1])[last.0 := last.1]
  }

  /** The row `initTable` builds from the record at position `idx`: its
      synthetic `id`, then the record's entries. */
  function RecordRow(idx: nat, rec: Record): (row: Row)
    ensures "id" in row
    ensures "id" !in Keys(rec) ==> row["id"] == Int(idx)
  {
    AssignKeys(map["id" := Int(idx)], rec);
    Assign(map["id" := Int(idx)], rec)
  }

  /** The rows `initTable` builds from `records`, one per record, in order. */
  function RecordRows(records: seq<Record>): (rs: seq<Row>)
    ensures |rs| == |records|
  {
    seq(|records|, k requires 0 <= k < |records| => RecordRow(k, records[k]))
  }

  /** One more entry of a record: its key is met after the earlier ones, and
      its value is assigned after theirs. */
  lemma EntryStep(columns: seq<string>, base: Row, rec: Record, j: nat)
    requires j < |rec|
    ensures AddKeys(columns, Keys(rec[..j + 1])) == AddKey(AddKeys(columns, Keys(rec[..j])), rec[j].0)
    ensures Assign(base, rec[..j + 1]) == Assign(base, rec[..j])[rec[j].0 := rec[j].1]
  {
    assert Keys(rec[..j + 1]) == Keys(rec[..j]) + [rec[j].0];
    assert rec[..j + 1][..j] == rec[..j];
  }

  /** The row has the base's keys and the record's keys, and a key the
      record does not list keeps its base value. */
  lemma {:induction false} AssignKeys(base: Row, entries: Record)
    ensures forall k :: k in Assign(base, entries) <==> k in base || k in Keys(entries)
    ensures forall k :: k in base && k !in Keys(entries) ==> Assign(base, entries)[k] == base[k]
  {
    if entries != [] {
      var init := entries[..|entries| - 1];
      AssignKeys(base, init);
      assert Keys(entries) == Keys(init) + [entries[|entries| - 1].0];
    }
  }

  /** An entry whose key the record lists only once gives that key its value. */
  lemma {:induction false} AssignValues(base: Row, entries: Record, i: int)
    requires 0 <= i < |entries|
    requires forall j :: 0 <= j < |entries| && j != i ==> entries[j].0 != entries[i].0
    ensures entries[i].0 in Assign(base, entries) && Assign(base, entries)[entries[i].0] == entries[i].1
  {
    var n := |entries| - 1;
    if i < n {
      var init := entries[..n];
      assert init[i] == entries[i];
      assert forall j :: 0 <= j < |init| && j != i ==> init[j].0 != init[i].0;
      AssignValues(base, init, i);
      assert entries[n].0 != entries[i].0;
    }
  }

  /** Record `idx` yields a row holding every key of the record and `id`; when
      the record's keys are distinct it holds each entry's value, and unless the
      record has its own "id" entry, `id` is `idx`. */
  lemma RecordRowContents(idx: nat, rec: Record)
    ensures forall k :: k in RecordRow(idx, rec) <==> k == "id" || k in Keys(rec)
    ensures "id" !in Keys(rec) ==> RecordRow(idx, rec)["id"] == Int(idx)
    ensures NoDuplicates(Keys(rec)) ==>
              forall i :: 0 <= i < |rec| ==> RecordRow(idx, rec)[rec[i].0] == rec[i].1
  {
    AssignKeys(map["id" := Int(idx)], rec);
    if NoDuplicates(Keys(rec)) {
      forall i | 0 <= i < |rec| ensures RecordRow(idx, rec)[rec[i].0] == rec[i].1 {
        forall j | 0 <= j < |rec| && j != i ensures rec[j].0 != rec[i].0 {
          assert Keys(rec)[i] == rec[i].0 && Keys(rec)[j] == rec[j].0;
        }
        AssignValues(map["id" := Int(idx)], rec, i);
      }
    }
  }

  /** Loading from no columns: the columns are the records' keys with
      duplicates dropped, in first-seen order, and "id" is a column only when
      some record has an "id" key of its own. */
  lemma LoadedColumns(records: seq<Record>)
    ensures var cols := AddKeys([], AllKeys(records));
            NoDuplicates(cols) &&
            (forall x :: x in cols <==> x in AllKeys(records)) &&
            FirstSeenOrder(cols, AllKeys(records)) &&
            ("id" in cols <==> exists r :: r in records && "id" in Keys(r))
  {
    var keys := AllKeys(records);
    AddKeysUnion([], keys);
    AddKeysFirstSeenOrder([], keys);
    assert [] + keys == keys;
    AllKeysMembers(records, "id");
  }

  /** A key occurs among all the keys exactly when some record has it. */
  lemma {:induction false} AllKeysMembers(records: seq<Record>, key: string)
    ensures key in AllKeys(records) <==> exists r :: r in records && key in Keys(r)
  {
    if records != [] {
      var init := records[..|records| - 1];
      AllKeysMembers(init, key);
      assert records == init + [records[|records| - 1]];
    }
  }
}
