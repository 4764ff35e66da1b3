/**
 * Image records and the value-level specification of the embedding cache.
 *
 * A store is the sequence of its records in enumeration order. The class
 * methods of module Server are proved against the functions here, and the
 * properties that relate several operations are lemmas about them.
 */
module Records {
  import opened Wrappers
  import opened Bytes
  import opened Hash
  import opened Codec

  /** Database.Image: a persisted record. */
  datatype Image = Image(id: int, name: string, data: seq<byte>, hash: string, embedding: seq<byte>)

  /** The outcome of decoding, normalising and embedding an image, which happens outside the model. */
  datatype Pipeline = Embedded(vector: seq<Float32>) | Failed

  /** The id GetEmbedding returns when anything goes wrong. */
  const FailedId: int := -1

  /** A new state of the store together with the value an operation returns. */
  datatype Outcome = Outcome(store: seq<Image>, value: int)

  /** `db.Images.Where(x => x.Hash == h).First()`: the index of the first record with hash h, if any. */
  function FirstWithHash(s: seq<Image>, h: string): (r: Option<nat>)
    ensures r.None? <==> forall i :: 0 <= i < |s| ==> s[i].hash != h
    ensures r.Some? ==> r.value < |s| && s[r.value].hash == h
    ensures r.Some? ==> forall j :: 0 <= j < r.value ==> s[j].hash != h
  {
    if s == [] then None
    else if s[0].hash == h then Some(0)
    else match FirstWithHash(s[1..], h)
      case None => None
      case Some(k) => Some(k + 1)
  }

  /** `db.Images.Where(x => x.ID == id).First()`: the index of the first record with that id, if any. */
  function FirstWithId(s: seq<Image>, id: int): (r: Option<nat>)
    ensures r.None? <==> forall i :: 0 <= i < |s| ==> s[i].id != id
    ensures r.Some? ==> r.value < |s| && s[r.value].id == id
    ensures r.Some? ==> forall j :: 0 <= j < r.value ==> s[j].id != id
  {
    if s == [] then None
    else if s[0].id == id then Some(0)
    else match FirstWithId(s[1..], id)
      case None => None
      case Some(k) => Some(k + 1)
  }

  /** The ids of the records, in enumeration order. */
  function Ids(s: seq<Image>): (r: seq<int>)
    ensures |r| == |s|
    ensures forall i :: 0 <= i < |s| ==> r[i] == s[i].id
  {
    if s == [] then [] else [s[0].id] + Ids(s[1..])
  }

  /** The number of records whose hash is h. */
  function CountHash(s: seq<Image>, h: string): nat
  {
    if s == [] then 0 else (if s[0].hash == h then 1 else 0) + CountHash(s[1..], h)
  }

  ghost predicate UniqueHashes(s: seq<Image>) {
    forall i, j :: 0 <= i < j < |s| ==> s[i].hash != s[j].hash
  }

  ghost predicate UniqueIds(s: seq<Image>) {
    forall i, j :: 0 <= i < j < |s| ==> s[i].id != s[j].id
  }

  /** A record as the cache writes it: a positive id, the hash of its data, a whole number of floats. */
  ghost predicate WellFormedRecord(sha: Hasher, r: Image) {
    r.id > 0 && r.hash == GetHash(sha, r.data) && |r.embedding| % 4 == 0
  }

  /** The invariant the cache keeps over its store. */
  ghost predicate WellFormed(sha: Hasher, s: seq<Image>) {
    && UniqueHashes(s)
    && UniqueIds(s)
    && forall i :: 0 <= i < |s| ==> WellFormedRecord(sha, s[i])
  }

  /** The record that `GetImageByID` returns, None standing for null. */
  function FindById(s: seq<Image>, id: int): (r: Option<Image>)
    ensures r.None? <==> forall i :: 0 <= i < |s| ==> s[i].id != id
    ensures r.Some? ==> r.value.id == id && r.value in s
  {
    match FirstWithId(s, id)
    case None => None
    case Some(k) => Some(s[k])
  }

  /**
   * `GetEmbedding` as a value: on a hash hit, the id of the first record with
   * that hash and no change; on a miss, FailedId if the pipeline failed, and
   * otherwise the id of the first record with that hash once the new record
   * is appended.
   */
  function InsertOrFetch(sha: Hasher, s: seq<Image>, name: string, data: seq<byte>, p: Pipeline, newId: int): (o: Outcome)
    // prior records are kept as they are, and at most one record is added
    ensures o.store == s || (|o.store| == |s| + 1 && o.store[..|s|] == s)
    // any id other than the sentinel belongs to a stored record with the image's hash
    ensures o.value != FailedId ==>
      exists k :: 0 <= k < |o.store| && o.store[k].id == o.value && o.store[k].hash == GetHash(sha, data)
  {
    var h := GetHash(sha, data);
    match FirstWithHash(s, h)
    case Some(k) => Outcome(s, s[k].id)
    case None =>
      match p
      case Failed => Outcome(s, FailedId)
      case Embedded(v) =>
        var s' := s + [Image(newId, name, data, h, Encode(v))];
        assert s'[|s|].hash == h;
        Outcome(s', s'[FirstWithHash(s', h).value].id)
  }

  /** Hit: the first record with the image's hash supplies the id, and the store is unchanged. */
  lemma InsertHit(sha: Hasher, s: seq<Image>, name: string, data: seq<byte>, p: Pipeline, newId: int, k: int)
    requires 0 <= k < |s| && s[k].hash == GetHash(sha, data)
    requires forall j :: 0 <= j < k ==> s[j].hash != GetHash(sha, data)
    ensures InsertOrFetch(sha, s, name, data, p, newId) == Outcome(s, s[k].id)
  {
  }

  /** Miss: exactly one record is appended, built from the inputs, and its id is returned. */
  lemma InsertMiss(sha: Hasher, s: seq<Image>, name: string, data: seq<byte>, v: seq<Float32>, newId: int)
    requires forall i :: 0 <= i < |s| ==> s[i].hash != GetHash(sha, data)
    ensures InsertOrFetch(sha, s, name, data, Embedded(v), newId) ==
      Outcome(s + [Image(newId, name, data, GetHash(sha, data), Encode(v))], newId)
  {
    var h := GetHash(sha, data);
    var s' := s + [Image(newId, name, data, h, Encode(v))];
    assert s'[|s|].hash == h;
    assert forall i :: 0 <= i < |s| ==> s'[i] == s[i];
    assert FirstWithHash(s', h) == Some(|s|);
  }

  /** Failure: a failed pipeline on a miss returns FailedId and leaves the store as it was. */
  lemma InsertFail(sha: Hasher, s: seq<Image>, name: string, data: seq<byte>, newId: int)
    requires forall i :: 0 <= i < |s| ==> s[i].hash != GetHash(sha, data)
    ensures InsertOrFetch(sha, s, name, data, Failed, newId) == Outcome(s, FailedId)
  {
  }

  /** With a fresh positive id, inserting keeps the store well formed, in particular free of duplicate hashes. */
  lemma InsertPreservesWellFormed(sha: Hasher, s: seq<Image>, name: string, data: seq<byte>, p: Pipeline, newId: int)
    requires WellFormed(sha, s)
    requires newId > 0 && newId !in Ids(s)
    ensures WellFormed(sha, InsertOrFetch(sha, s, name, data, p, newId).store)
  {
    var h := GetHash(sha, data);
    if FirstWithHash(s, h).None? && p.Embedded? {
      InsertMiss(sha, s, name, data, p.vector, newId);
      AppendPreservesWellFormed(sha, s, Image(newId, name, data, h, Encode(p.vector)));
    }
  }

  lemma AppendPreservesWellFormed(sha: Hasher, s: seq<Image>, r: Image)
    requires WellFormed(sha, s) && WellFormedRecord(sha, r)
    requires r.id !in Ids(s)
    requires forall i :: 0 <= i < |s| ==> s[i].hash != r.hash
    ensures WellFormed(sha, s + [r])
  {
    var s' := s + [r];
    assert s'[|s|] == r;
    forall i | 0 <= i < |s|
      ensures s'[i] == s[i] && s[i].id != r.id
    {
      assert s[i].id == Ids(s)[i];
    }
  }

  /** A successful id is never the failure sentinel, and it names a record in the resulting store. */
  lemma InsertIdValid(sha: Hasher, s: seq<Image>, name: string, data: seq<byte>, p: Pipeline, newId: int)
    requires WellFormed(sha, s)
    requires newId > 0 && newId !in Ids(s)
    ensures var o := InsertOrFetch(sha, s, name, data, p, newId);
      o.value != FailedId ==> o.value > 0 && FindById(o.store, o.value).Some?
  {
    var o := InsertOrFetch(sha, s, name, data, p, newId);
    InsertPreservesWellFormed(sha, s, name, data, p, newId);
    if o.value != FailedId {
      var h := GetHash(sha, data);
      var k :| 0 <= k < |o.store| && o.store[k].id == o.value && o.store[k].hash == h;
      assert WellFormedRecord(sha, o.store[k]);
    }
  }

  /** In a store without duplicate hashes, a hash that is present occurs exactly once. */
  lemma {:induction false} CountUnique(s: seq<Image>, h: string, k: int)
    requires UniqueHashes(s)
    requires 0 <= k < |s| && s[k].hash == h
    ensures CountHash(s, h) == 1
  {
    if k == 0 {
      CountAbsent(s[1..], h);
    } else {
      CountUnique(s[1..], h, k - 1);
    }
  }

  lemma {:induction false} CountAbsent(s: seq<Image>, h: string)
    requires forall i :: 0 <= i < |s| ==> s[i].hash != h
    ensures CountHash(s, h) == 0
  {
    if s != [] {
      CountAbsent(s[1..], h);
    }
  }

  /**
   * Deduplication: a second insertion of the same bytes, under any name,
   * returns the id of the first, changes nothing, and one record holds the hash.
   */
  lemma InsertIdempotent(sha: Hasher, s: seq<Image>, name1: string, name2: string, data: seq<byte>,
                         p1: Pipeline, p2: Pipeline, id1: int, id2: int)
    requires WellFormed(sha, s)
    requires id1 > 0 && id1 !in Ids(s)
    requires InsertOrFetch(sha, s, name1, data, p1, id1).value != FailedId
    ensures var o1 := InsertOrFetch(sha, s, name1, data, p1, id1);
      && InsertOrFetch(sha, o1.store, name2, data, p2, id2) == o1
      && CountHash(o1.store, GetHash(sha, data)) == 1
  {
    var h := GetHash(sha, data);
    var o1 := InsertOrFetch(sha, s, name1, data, p1, id1);
    InsertPreservesWellFormed(sha, s, name1, data, p1, id1);
    if FirstWithHash(s, h).None? {
      InsertMiss(sha, s, name1, data, p1.vector, id1);
      assert o1.store[|s|].hash == h;
    }
    var k := FirstWithHash(o1.store, h);
    assert k.Some?;
    CountUnique(o1.store, h, k.value);
    InsertHit(sha, o1.store, name2, data, p2, id2, k.value);
  }

  lemma FindAppended(s: seq<Image>, r: Image)
    requires r.id !in Ids(s)
    ensures FindById(s + [r], r.id) == Some(r)
  {
    var s' := s + [r];
    assert s'[|s|] == r;
    forall i | 0 <= i < |s|
      ensures s'[i].id != r.id
    {
      assert s'[i] == s[i] && s[i].id == Ids(s)[i];
    }
  }

  /** After a miss the new record can be looked up by its id. */
  lemma LookupAfterInsert(sha: Hasher, s: seq<Image>, name: string, data: seq<byte>, v: seq<Float32>, newId: int)
    requires newId !in Ids(s)
    requires forall i :: 0 <= i < |s| ==> s[i].hash != GetHash(sha, data)
    ensures var o := InsertOrFetch(sha, s, name, data, Embedded(v), newId);
      FindById(o.store, newId) == Some(Image(newId, name, data, GetHash(sha, data), Encode(v)))
  {
    InsertMiss(sha, s, name, data, v, newId);
    FindAppended(s, Image(newId, name, data, GetHash(sha, data), Encode(v)));
  }

  /** In a well-formed store, looking up a record's id finds that record. */
  lemma LookupFindsRecord(sha: Hasher, s: seq<Image>, k: int)
    requires WellFormed(sha, s) && 0 <= k < |s|
    ensures FindById(s, s[k].id) == Some(s[k])
  {
    var r := FirstWithId(s, s[k].id);
    assert r.Some?;
  }

  /**
   * An end-to-end run: insert F1 as "cat.png" (id 1), insert F1
   * again under another name (id 1 again, no new record), insert F2 (id 2);
   * the store then enumerates ids [1, 2].
   */
  lemma Scenario(sha: Hasher, f1: seq<byte>, f2: seq<byte>, other: string, v1: seq<Float32>, v2: seq<Float32>, p: Pipeline)
    requires sha(f1) != sha(f2)
    ensures var o1 := InsertOrFetch(sha, [], "cat.png", f1, Embedded(v1), 1);
      var o2 := InsertOrFetch(sha, o1.store, other, f1, p, 2);
      var o3 := InsertOrFetch(sha, o2.store, other, f2, Embedded(v2), 2);
      && o1.value == 1 && o2.value == 1 && o2.store == o1.store
      && o3.value == 2 && Ids(o3.store) == [1, 2]
  {
    GetHashMatchesDigest(sha, f1, f2);
    InsertMiss(sha, [], "cat.png", f1, v1, 1);
    var o1 := InsertOrFetch(sha, [], "cat.png", f1, Embedded(v1), 1);
    InsertHit(sha, o1.store, other, f1, p, 2, 0);
    InsertMiss(sha, o1.store, other, f2, v2, 2);
  }
}
