/** The dedup ledger: one record per published entry, queried before every
    publish attempt and appended after a confirmed one. */
module Dedup {

  /** What the ledger is queried by: entry id, source, publishing account, instance. */
  datatype Key = Key(entryId: string, source: string, username: string, instance: string)

  /** A row of the `tweets` table. */
  datatype Record = Record(entryId: string, postId: string, source: string, username: string, instance: string)
  {
    function KeyOf(): Key {
      Key(entryId, source, username, instance)
    }
  }

  /** Some record of the ledger matches the key. */
  predicate Processed(records: seq<Record>, k: Key) {
    exists i :: 0 <= i < |records| && records[i].KeyOf() == k
  }

  /** No two records share a key. */
  predicate UniqueKeys(records: seq<Record>) {
    forall i, j :: 0 <= i < j < |records| ==> records[i].KeyOf() != records[j].KeyOf()
  }

  /** After a record is appended, exactly its own key and the keys already there
      are processed. */
  lemma ProcessedAfterAppend(records: seq<Record>, rec: Record, k: Key)
    ensures Processed(records + [rec], k) <==> Processed(records, k) || rec.KeyOf() == k
  {
    var grown := records + [rec];
    if rec.KeyOf() == k {
      assert grown[|records|].KeyOf() == k;
    }
    if Processed(records, k) {
      var i :| 0 <= i < |records| && records[i].KeyOf() == k;
      assert grown[i].KeyOf() == k;
    }
    if Processed(grown, k) {
      var i :| 0 <= i < |grown| && grown[i].KeyOf() == k;
      if i < |records| {
        assert records[i].KeyOf() == k;
      }
    }
  }

  /** A key is processed in a concatenation exactly when it is in either part. */
  lemma ProcessedConcat(a: seq<Record>, b: seq<Record>, k: Key)
    ensures Processed(a + b, k) <==> Processed(a, k) || Processed(b, k)
  {
    if Processed(a, k) {
      var i :| 0 <= i < |a| && a[i].KeyOf() == k;
      assert (a + b)[i] == a[i];
    }
    if Processed(b, k) {
      var i :| 0 <= i < |b| && b[i].KeyOf() == k;
      assert (a + b)[|a| + i] == b[i];
    }
    if Processed(a + b, k) {
      var i :| 0 <= i < |a + b| && (a + b)[i].KeyOf() == k;
      if i < |a| {
        assert a[i].KeyOf() == k;
      } else {
        assert b[i - |a|].KeyOf() == k;
      }
    }
  }

  /** Appending a record whose key is not yet processed keeps keys unique. */
  lemma UniqueAfterAppend(records: seq<Record>, rec: Record)
    requires UniqueKeys(records) && !Processed(records, rec.KeyOf())
    ensures UniqueKeys(records + [rec])
  {
    var grown := records + [rec];
    forall i, j | 0 <= i < j < |grown| ensures grown[i].KeyOf() != grown[j].KeyOf() {
      if j == |records| {
        assert grown[i] == records[i];
      } else {
        assert grown[i] == records[i] && grown[j] == records[j];
      }
    }
  }

  /** The ledger store: the rows of the `tweets` table. */
  class Ledger {
    var records: seq<Record>

    /** Opening a store that already holds `stored`. */
    constructor (stored: seq<Record>)
      ensures records == stored
    {
      records := stored;
    }

    /** The `SELECT` of the loop: does a row match the key? */
    function IsProcessed(k: Key): bool
      reads this
    {
      Processed(records, k)
    }

    /** `INSERT` followed by `commit`: the ledger only grows, by exactly this
        record. */
    method Insert(rec: Record)
      modifies this
      ensures records == old(records) + [rec]
      ensures forall k :: IsProcessed(k) <==> old(IsProcessed(k)) || k == rec.KeyOf()
      ensures old(UniqueKeys(records)) && !old(IsProcessed(rec.KeyOf())) ==> UniqueKeys(records)
    {
      forall k ensures Processed(records + [rec], k) <==> Processed(records, k) || rec.KeyOf() == k {
        ProcessedAfterAppend(records, rec, k);
      }
      if UniqueKeys(records) && !Processed(records, rec.KeyOf()) {
        UniqueAfterAppend(records, rec);
      }
      records := records + [rec];
    }
  }
}
