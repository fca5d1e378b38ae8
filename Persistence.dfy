/** Whole-snapshot persistence of the vehicle table, without the file system:
    saving is the flattened list of records (the JSON array `save_data`
    writes), and loading is the replay of such a list through the upsert, as
    `load_data` does, seen through its effect on the key-to-record map. */
module Persistence {
  import opened Buckets

  /** One element of the stored JSON array as `load_data` meets it: an
      object with the four fields, or an element the replay fails on (a
      missing field, an element that is not an object, a registration number
      that cannot be hashed). */
  datatype StoredEntry = Complete(vehicle: Vehicle) | Malformed

  /** What `load_data` finds at the data file. */
  datatype StoredFile =
    | Absent                            // no file at the path
    | Unreadable                        // opening or parsing fails, or the content is not a list
    | Parsed(entries: seq<StoredEntry>) // the parsed JSON array

  /** The JSON array `save_data` writes for a list of records: one complete
      object per record, in order. */
  function Serialize(vehicles: seq<Vehicle>): (r: seq<StoredEntry>)
    ensures |r| == |vehicles|
    ensures forall i :: 0 <= i < |r| ==> r[i] == Complete(vehicles[i])
  {
    if |vehicles| == 0 then [] else [Complete(vehicles[0])] + Serialize(vehicles[1..])
  }

  /** The effect on the key-to-record map of the loop in `load_data`: each
      complete entry is upserted in turn; the first malformed entry raises,
      the exception is swallowed, and the entries after it are never read. */
  function Replay(m: map<string, Vehicle>, entries: seq<StoredEntry>): (r: map<string, Vehicle>)
    ensures m.Keys <= r.Keys
    decreases |entries|
  {
    if |entries| == 0 then m
    else
      match entries[0]
      case Malformed => m
      case Complete(v) => Replay(m[v.registration := v], entries[1..])
  }

  /** The map after `load_data` runs on a table holding `m`: a missing or
      unreadable file leaves it as it is. */
  function LoadInto(m: map<string, Vehicle>, file: StoredFile): (r: map<string, Vehicle>)
    ensures m.Keys <= r.Keys
  {
    match file
    case Parsed(entries) => Replay(m, entries)
    case _ => m
  }

  /** The same loop seen through its effect on the buckets: `Upsert` for each
      complete entry in turn, up to the first malformed one. */
  function ReplayBuckets(buckets: seq<Bucket>, size: nat, entries: seq<StoredEntry>): (r: seq<Bucket>)
    requires size > 0 && |buckets| == size
    ensures |r| == size
    decreases |entries|
  {
    if |entries| == 0 then buckets
    else
      match entries[0]
      case Malformed => buckets
      case Complete(v) => ReplayBuckets(Upsert(buckets, size, v), size, entries[1..])
  }

  /** The buckets after `load_data`: a missing or unreadable file leaves them
      as they are. */
  function LoadBuckets(buckets: seq<Bucket>, size: nat, file: StoredFile): (r: seq<Bucket>)
    requires size > 0 && |buckets| == size
    ensures |r| == size
    ensures !file.Parsed? ==> r == buckets
  {
    match file
    case Parsed(entries) => ReplayBuckets(buckets, size, entries)
    case _ => buckets
  }

  /** The bucket replay and the map replay agree: loading into a table that
      represents `m` gives a table that represents `LoadInto(m, file)`. */
  lemma {:induction false} ReplayBucketsWellFormed(buckets: seq<Bucket>, size: nat, m: map<string, Vehicle>, entries: seq<StoredEntry>)
    requires WellFormed(buckets, size, m)
    ensures WellFormed(ReplayBuckets(buckets, size, entries), size, Replay(m, entries))
    decreases |entries|
  {
    if |entries| > 0 {
      match entries[0]
      case Malformed =>
      case Complete(v) =>
        UpsertKeepsWellFormed(buckets, size, m, v);
        ReplayBucketsWellFormed(Upsert(buckets, size, v), size, m[v.registration := v], entries[1..]);
    }
  }

  /** See `ReplayBucketsWellFormed`, for a whole file. */
  lemma LoadBucketsWellFormed(buckets: seq<Bucket>, size: nat, m: map<string, Vehicle>, file: StoredFile)
    requires WellFormed(buckets, size, m)
    ensures WellFormed(LoadBuckets(buckets, size, file), size, LoadInto(m, file))
  {
    if file.Parsed? {
      ReplayBucketsWellFormed(buckets, size, m, file.entries);
    }
  }

  /** Within a bucket, loading keeps the file's order: with a single bucket,
      records with new, distinct keys are appended in the order listed. */
  lemma {:induction false} ReplaySingleBucket(bucket: Bucket, vehicles: seq<Vehicle>)
    requires KeysUnique(bucket + vehicles)
    ensures ReplayBuckets([bucket], 1, Serialize(vehicles)) == [bucket + vehicles]
    decreases |vehicles|
  {
    var s := bucket + vehicles;
    if |vehicles| == 0 {
      assert s == bucket;
    } else {
      var v, rest := vehicles[0], vehicles[1..];
      assert s[|bucket|] == v;
      forall j | 0 <= j < |bucket| ensures bucket[j].registration != v.registration {
        assert s[j] == bucket[j];
      }
      assert FindIndex(bucket, v.registration).None?;
      assert Upsert([bucket], 1, v) == [bucket + [v]];
      assert (bucket + [v]) + rest == s;
      assert Serialize(vehicles) == [Complete(v)] + Serialize(rest);
      ReplaySingleBucket(bucket + [v], rest);
    }
  }

  /** A one-bucket store loaded from a file of records with distinct keys
      lists them in the file's order. */
  lemma LoadSingleBucketOrder(vehicles: seq<Vehicle>)
    requires KeysUnique(vehicles)
    ensures Flatten(LoadBuckets([[]], 1, Parsed(Serialize(vehicles)))) == vehicles
  {
    assert [] + vehicles == vehicles;
    ReplaySingleBucket([], vehicles);
    assert Flatten([vehicles]) == Flatten([]) + vehicles;
  }

  /** Replaying a list of records with distinct keys adds exactly those keys,
      each with its listed record, and keeps every other key of `m` as it
      was. */
  lemma {:induction false} ReplayDistinct(m: map<string, Vehicle>, vehicles: seq<Vehicle>)
    requires KeysUnique(vehicles)
    ensures Replay(m, Serialize(vehicles)).Keys == m.Keys + KeysOf(vehicles)
    ensures forall v :: v in vehicles ==> Replay(m, Serialize(vehicles))[v.registration] == v
    ensures forall k :: k in m && k !in KeysOf(vehicles) ==> Replay(m, Serialize(vehicles))[k] == m[k]
    decreases |vehicles|
  {
    if |vehicles| > 0 {
      var v, rest := vehicles[0], vehicles[1..];
      var m' := m[v.registration := v];
      var r := Replay(m, Serialize(vehicles));
      assert Serialize(vehicles) == [Complete(v)] + Serialize(rest);
      assert r == Replay(m', Serialize(rest));
      assert vehicles == [v] + rest;
      UniqueTail(vehicles);
      ReplayDistinct(m', rest);
      assert KeysOf(vehicles) == {v.registration} + KeysOf(rest);
      forall w | w in vehicles ensures r[w.registration] == w {
        if w != v {
          assert w in rest;
        }
      }
    }
  }

  /** Save then load reproduces the table: replaying the list `save_data`
      writes into an empty table rebuilds the same key-to-record map, whatever
      bucket count the new table has (the map does not mention one). */
  lemma SaveLoadRoundTrip(buckets: seq<Bucket>, size: nat, contents: map<string, Vehicle>)
    requires WellFormed(buckets, size, contents)
    ensures LoadInto(map[], Parsed(Serialize(Flatten(buckets)))) == contents
  {
    FlattenAgreesWithContents(buckets, size, contents);
    ReplayRebuilds(Flatten(buckets), contents);
  }

  /** A list with distinct keys that lists exactly the records of a map
      replays into that map. */
  lemma ReplayRebuilds(saved: seq<Vehicle>, contents: map<string, Vehicle>)
    requires KeysUnique(saved) && KeysOf(saved) == contents.Keys
    requires forall v :: v in saved ==> v.registration in contents && contents[v.registration] == v
    ensures Replay(map[], Serialize(saved)) == contents
  {
    var empty: map<string, Vehicle> := map[];
    ReplayDistinct(empty, saved);
    assert empty.Keys + KeysOf(saved) == KeysOf(saved);
    SameListingSameMap(Replay(empty, Serialize(saved)), contents, saved);
  }

  /** Two maps with the keys of a list, each holding the list's records
      under their keys, are equal. */
  lemma SameListingSameMap(m1: map<string, Vehicle>, m2: map<string, Vehicle>, listed: seq<Vehicle>)
    requires m1.Keys == KeysOf(listed) && m2.Keys == KeysOf(listed)
    requires forall v :: v in listed ==> m1[v.registration] == v
    requires forall v :: v in listed ==> v.registration in m2 && m2[v.registration] == v
    ensures m1 == m2
  {
    forall k | k in m1 ensures m1[k] == m2[k] {
      var v :| v in listed && v.registration == k;
    }
  }

  /** The first malformed entry ends the load: what was replayed before it
      stays in the table, and nothing after it is read. A damaged file
      therefore does not always leave the table empty. */
  lemma {:induction false} ReplayStopsAtMalformed(m: map<string, Vehicle>, before: seq<Vehicle>, after: seq<StoredEntry>)
    ensures Replay(m, Serialize(before) + [Malformed] + after) == Replay(m, Serialize(before))
    decreases |before|
  {
    if |before| > 0 {
      var v := before[0];
      assert (Serialize(before) + [Malformed] + after)[1..] == Serialize(before[1..]) + [Malformed] + after;
      assert Serialize(before)[1..] == Serialize(before[1..]);
      ReplayStopsAtMalformed(m[v.registration := v], before[1..], after);
    } else {
      assert Serialize(before) + [Malformed] + after == [Malformed] + after;
    }
  }

  /** Loading is an upsert per entry: when a key is listed more than once,
      the last complete listing before any malformed entry wins. */
  lemma {:induction false} ReplayLastWins(m: map<string, Vehicle>, before: seq<Vehicle>, v: Vehicle, after: seq<Vehicle>)
    requires v.registration !in KeysOf(after)
    ensures v.registration in Replay(m, Serialize(before + [v] + after))
    ensures Replay(m, Serialize(before + [v] + after))[v.registration] == v
    decreases |before|
  {
    if |before| > 0 {
      var w := before[0];
      assert (before + [v] + after)[1..] == before[1..] + [v] + after;
      assert Serialize(before + [v] + after)[1..] == Serialize(before[1..] + [v] + after);
      ReplayLastWins(m[w.registration := w], before[1..], v, after);
    } else {
      assert before + [v] + after == [v] + after;
      assert Serialize([v] + after)[1..] == Serialize(after);
      ReplayKeepsUnlisted(m[v.registration := v], after, v.registration);
    }
  }

  /** A key that is not listed keeps its value through the replay. */
  lemma {:induction false} ReplayKeepsUnlisted(m: map<string, Vehicle>, vehicles: seq<Vehicle>, key: string)
    requires key !in KeysOf(vehicles)
    ensures key in m ==> key in Replay(m, Serialize(vehicles)) && Replay(m, Serialize(vehicles))[key] == m[key]
    ensures key !in m ==> key !in Replay(m, Serialize(vehicles))
    decreases |vehicles|
  {
    if |vehicles| > 0 {
      var w := vehicles[0];
      assert w in vehicles;
      assert Serialize(vehicles)[1..] == Serialize(vehicles[1..]);
      assert KeysOf(vehicles[1..]) <= KeysOf(vehicles) by {
        forall u | u in vehicles[1..] ensures u in vehicles {
          var j :| 0 <= j < |vehicles[1..]| && vehicles[1..][j] == u;
          assert vehicles[j + 1] == u;
        }
      }
      ReplayKeepsUnlisted(m[w.registration := w], vehicles[1..], key);
    }
  }
}
