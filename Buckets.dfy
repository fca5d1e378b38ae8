/** The values the vehicle table is made of: a stored tuple, a bucket (the
    ordered list of tuples that share an index), the linear scans over one
    bucket, and the table as a whole seen as a sequence of buckets, with the
    invariant that ties it to a map from registration number to record. */
module Buckets {
  import opened Hashing

  datatype Option<T> = None | Some(value: T)

  /** One tuple `(registration_number, owner_name, vehicle_type, year)`. The
      registration number is the key. */
  datatype Vehicle = Vehicle(registration: string, owner: string, kind: string, year: string)

  /** The entries that share one index, in insertion order. */
  type Bucket = seq<Vehicle>

  /** No registration number occurs twice in `s`. */
  predicate KeysUnique(s: seq<Vehicle>)
  {
    forall i, j :: 0 <= i < j < |s| ==> s[i].registration != s[j].registration
  }

  /** The registration numbers that occur in `s`. */
  function KeysOf(s: seq<Vehicle>): (r: set<string>)
  {
    set v | v in s :: v.registration
  }

  // ---------------------------------------------------------------------
  // One bucket
  // ---------------------------------------------------------------------

  /** The scan `for i, (reg_num, ...) in enumerate(bucket)`: the position of
      the first entry whose key is `key`, or None when no entry has it. */
  function FindIndex(bucket: Bucket, key: string): (r: Option<nat>)
    ensures r.None? ==> forall j :: 0 <= j < |bucket| ==> bucket[j].registration != key
    ensures r.Some? ==> r.value < |bucket| && bucket[r.value].registration == key
    ensures r.Some? ==> forall j :: 0 <= j < r.value ==> bucket[j].registration != key
  {
    if |bucket| == 0 then None
    else if bucket[0].registration == key then Some(0)
    else
      match FindIndex(bucket[1..], key)
      case None => None
      case Some(i) => Some(i + 1)
  }

  /** The record the scan of `search` returns from one bucket. */
  function Lookup(bucket: Bucket, key: string): (r: Option<Vehicle>)
    ensures r.None? <==> forall j :: 0 <= j < |bucket| ==> bucket[j].registration != key
    ensures r.Some? ==> r.value.registration == key && r.value in bucket
  {
    match FindIndex(bucket, key)
    case Some(i) => Some(bucket[i])
    case None => None
  }

  /** When keys are unique, the scan finds the one entry with the key. */
  lemma LookupUnique(bucket: Bucket, key: string, v: Vehicle)
    requires KeysUnique(bucket) && v in bucket && v.registration == key
    ensures Lookup(bucket, key) == Some(v)
  {
    var j :| 0 <= j < |bucket| && bucket[j] == v;
    FirstMatch(bucket, key, j);
  }

  /** The scan stops at the first entry carrying the key. */
  lemma FirstMatch(bucket: Bucket, key: string, i: nat)
    requires i < |bucket| && bucket[i].registration == key
    requires forall j :: 0 <= j < i ==> bucket[j].registration != key
    ensures FindIndex(bucket, key) == Some(i)
  {
    var r := FindIndex(bucket, key);
    assert r.Some?;
  }

  /** The bucket after `insert_without_save`: the first entry with the same
      key is overwritten where it stands, otherwise the record is appended. */
  function UpsertBucket(bucket: Bucket, v: Vehicle): (r: Bucket)
  {
    match FindIndex(bucket, v.registration)
    case Some(i) => bucket[i := v]
    case None => bucket + [v]
  }

  /** The bucket after `delete`: the first entry with the key is removed and
      the others keep their order. */
  function RemoveBucket(bucket: Bucket, key: string): (r: Bucket)
  {
    match FindIndex(bucket, key)
    case Some(i) => bucket[..i] + bucket[i + 1..]
    case None => bucket
  }

  /** Order-preserving reference for removal: the entries whose key is not
      `key`, in their original order. */
  function Without(s: seq<Vehicle>, key: string): (r: seq<Vehicle>)
  {
    if |s| == 0 then []
    else if s[0].registration == key then Without(s[1..], key)
    else [s[0]] + Without(s[1..], key)
  }

  /** An existing key is overwritten in place: the bucket keeps its length,
      every entry with another key keeps its position, and the entry with
      the key becomes the new record. A new key is appended at the end. Keys
      stay unique. */
  lemma UpsertBucketInPlace(bucket: Bucket, v: Vehicle)
    requires KeysUnique(bucket)
    ensures KeysUnique(UpsertBucket(bucket, v))
    ensures Lookup(bucket, v.registration).Some? ==>
      |UpsertBucket(bucket, v)| == |bucket| &&
      forall j :: 0 <= j < |bucket| ==>
        UpsertBucket(bucket, v)[j] == if bucket[j].registration == v.registration then v else bucket[j]
    ensures Lookup(bucket, v.registration).None? ==> UpsertBucket(bucket, v) == bucket + [v]
  {
    var r := UpsertBucket(bucket, v);
    match FindIndex(bucket, v.registration)
    case Some(i) =>
      assert r == bucket[i := v];
      assert forall j :: 0 <= j < |bucket| ==>
        r[j] == if bucket[j].registration == v.registration then v else bucket[j];
    case None =>
  }

  /** What an upsert leaves in the bucket: the new record and the entries
      with other keys. */
  lemma UpsertBucketMembers(bucket: Bucket, v: Vehicle)
    requires KeysUnique(bucket)
    ensures forall w :: w in UpsertBucket(bucket, v) <==>
      w == v || (w in bucket && w.registration != v.registration)
  {
    UpsertBucketInPlace(bucket, v);
    var r := UpsertBucket(bucket, v);
    match FindIndex(bucket, v.registration)
    case Some(i) =>
      forall w ensures w in r <==> w == v || (w in bucket && w.registration != v.registration) {
        if w in r {
          var j :| 0 <= j < |r| && r[j] == w;
        }
        if w == v {
          assert r[i] == v;
        }
        if w in bucket && w.registration != v.registration {
          var j :| 0 <= j < |bucket| && bucket[j] == w;
          assert r[j] == w;
        }
      }
    case None =>
  }

  /** What a removal leaves in the bucket: exactly the entries with other
      keys. */
  lemma RemoveBucketMembers(bucket: Bucket, key: string)
    requires KeysUnique(bucket)
    ensures forall w :: w in RemoveBucket(bucket, key) <==> w in bucket && w.registration != key
  {
    match FindIndex(bucket, key)
    case Some(i) =>
      var r := bucket[..i] + bucket[i + 1..];
      forall w ensures w in r <==> w in bucket && w.registration != key {
        if w in bucket[..i] {
          var j :| 0 <= j < i && bucket[..i][j] == w;
          assert bucket[j] == w;
        }
        if w in bucket[i + 1..] {
          var j :| 0 <= j < |bucket| - i - 1 && bucket[i + 1..][j] == w;
          assert bucket[i + 1 + j] == w;
        }
        if w in bucket && w.registration != key {
          var j :| 0 <= j < |bucket| && bucket[j] == w;
          if j < i {
            assert bucket[..i][j] == w;
          } else {
            assert j != i;
            assert bucket[i + 1..][j - i - 1] == w;
          }
        }
      }
    case None =>
  }

  /** Removing the first entry with a given key from a bucket of unique keys
      drops exactly one entry (or none when the key is absent) and keeps
      every other entry in its relative order. */
  lemma RemoveBucketKeepsOrder(bucket: Bucket, key: string)
    requires KeysUnique(bucket)
    ensures RemoveBucket(bucket, key) == Without(bucket, key)
    ensures KeysUnique(RemoveBucket(bucket, key))
    ensures |RemoveBucket(bucket, key)| ==
      if Lookup(bucket, key).Some? then |bucket| - 1 else |bucket|
  {
    RemoveIsWithout(bucket, key);
    match FindIndex(bucket, key)
    case Some(i) =>
      DropKeepsUnique(bucket, i);
    case None =>
  }

  /** Dropping one position keeps keys unique. */
  lemma DropKeepsUnique(s: seq<Vehicle>, i: nat)
    requires KeysUnique(s) && i < |s|
    ensures KeysUnique(s[..i] + s[i + 1..])
  {
    var r := s[..i] + s[i + 1..];
    forall a, b | 0 <= a < b < |r| ensures r[a].registration != r[b].registration {
      var a', b' := if a < i then a else a + 1, if b < i then b else b + 1;
      assert r[a] == s[a'] && r[b] == s[b'];
    }
  }

  /** Without leaves a sequence that lacks the key unchanged. */
  lemma {:induction false} WithoutAbsent(s: seq<Vehicle>, key: string)
    requires forall j :: 0 <= j < |s| ==> s[j].registration != key
    ensures Without(s, key) == s
  {
    if |s| > 0 {
      WithoutAbsent(s[1..], key);
    }
  }

  lemma {:induction false} RemoveIsWithout(s: seq<Vehicle>, key: string)
    requires KeysUnique(s)
    ensures RemoveBucket(s, key) == Without(s, key)
  {
    if |s| > 0 {
      var tail := s[1..];
      if s[0].registration == key {
        assert FindIndex(s, key) == Some(0);
        WithoutAbsent(tail, key);
      } else {
        RemoveIsWithout(tail, key);
        match FindIndex(tail, key)
        case Some(i) =>
          assert FindIndex(s, key) == Some(i + 1);
          assert s[..i + 1] + s[i + 2..] == [s[0]] + (tail[..i] + tail[i + 1..]);
        case None =>
          assert FindIndex(s, key) == None;
          assert s == [s[0]] + tail;
      }
    }
  }

  /** After an upsert of `v`, the scan for `v`'s key finds `v`, and the scan
      for any other key finds what it found before. Holds of every bucket. */
  lemma UpsertBucketLookup(bucket: Bucket, v: Vehicle, key: string)
    ensures Lookup(UpsertBucket(bucket, v), key) ==
      if key == v.registration then Some(v) else Lookup(bucket, key)
  {
    var r := UpsertBucket(bucket, v);
    match FindIndex(bucket, v.registration)
    case Some(i) =>
      if key == v.registration {
        FirstMatch(r, key, i);
      } else {
        match FindIndex(bucket, key)
        case Some(k) =>
          FirstMatch(r, key, k);
        case None =>
      }
    case None =>
      if key == v.registration {
        FirstMatch(r, key, |bucket|);
      } else {
        match FindIndex(bucket, key)
        case Some(k) =>
          FirstMatch(r, key, k);
        case None =>
          assert forall j :: 0 <= j < |r| ==> r[j].registration != key;
      }
  }

  /** After a removal of `key` from a bucket of unique keys, the scan for
      `key` finds nothing, and the scan for any other key finds what it found
      before. */
  lemma RemoveBucketLookup(bucket: Bucket, key: string, other: string)
    requires KeysUnique(bucket)
    ensures Lookup(RemoveBucket(bucket, key), other) ==
      if other == key then None else Lookup(bucket, other)
  {
    RemoveBucketMembers(bucket, key);
    RemoveBucketKeepsOrder(bucket, key);
    var r := RemoveBucket(bucket, key);
    if other != key {
      match Lookup(bucket, other)
      case Some(w) =>
        LookupUnique(r, other, w);
      case None =>
        forall j | 0 <= j < |r| ensures r[j].registration != other {
          assert r[j] in bucket;
        }
    } else {
      forall j | 0 <= j < |r| ensures r[j].registration != other {
        assert r[j] in r;
      }
    }
  }

  // ---------------------------------------------------------------------
  // The whole table
  // ---------------------------------------------------------------------

  /** The list `get_all_vehicles` and `save_data` build: the buckets one
      after another in index order, each in its own order. */
  function Flatten(buckets: seq<Bucket>): (r: seq<Vehicle>)
  {
    if |buckets| == 0 then []
    else Flatten(buckets[..|buckets| - 1]) + buckets[|buckets| - 1]
  }

  /** The table invariant, relating `size` buckets to the map `contents`
      they represent: every entry sits in the bucket its key hashes to, no
      key occurs twice in a bucket, every entry is the map's record for its
      key, and every record of the map is stored in its key's bucket. */
  ghost predicate WellFormed(buckets: seq<Bucket>, size: nat, contents: map<string, Vehicle>)
  {
    && size > 0
    && |buckets| == size
    && (forall b :: 0 <= b < |buckets| ==> KeysUnique(buckets[b]))
    && (forall b, v :: 0 <= b < |buckets| && v in buckets[b] ==>
          Hash(v.registration, size) == b && v.registration in contents && contents[v.registration] == v)
    && (forall k :: k in contents ==>
          contents[k].registration == k && contents[k] in buckets[Hash(k, size)])
  }

  /** The table after `insert_without_save`: only the key's bucket changes. */
  function Upsert(buckets: seq<Bucket>, size: nat, v: Vehicle): (r: seq<Bucket>)
    requires size > 0 && |buckets| == size
    ensures |r| == size
  {
    var h := Hash(v.registration, size);
    buckets[h := UpsertBucket(buckets[h], v)]
  }

  /** The table after `delete`: only the key's bucket changes. */
  function Remove(buckets: seq<Bucket>, size: nat, key: string): (r: seq<Bucket>)
    requires size > 0 && |buckets| == size
    ensures |r| == size
  {
    var h := Hash(key, size);
    buckets[h := RemoveBucket(buckets[h], key)]
  }

  /** The result of `search`: the scan of the key's bucket. */
  function Find(buckets: seq<Bucket>, size: nat, key: string): (r: Option<Vehicle>)
    requires size > 0 && |buckets| == size
    ensures r.Some? ==> r.value.registration == key
  {
    Lookup(buckets[Hash(key, size)], key)
  }

  /** The scan of the key's bucket finds exactly the map's record for the
      key, and finds nothing exactly when the map lacks the key. */
  lemma FindAgreesWithContents(buckets: seq<Bucket>, size: nat, contents: map<string, Vehicle>, key: string)
    requires WellFormed(buckets, size, contents)
    ensures Find(buckets, size, key) == if key in contents then Some(contents[key]) else None
  {
    var h := Hash(key, size);
    if key in contents {
      LookupUnique(buckets[h], key, contents[key]);
    } else {
      forall j | 0 <= j < |buckets[h]| ensures buckets[h][j].registration != key {
        assert buckets[h][j] in buckets[h];
      }
    }
  }

  /** Search after insert: the inserted key finds the new record, every
      other key finds what it found before. */
  lemma UpsertThenFind(buckets: seq<Bucket>, size: nat, v: Vehicle, key: string)
    requires size > 0 && |buckets| == size
    ensures Find(Upsert(buckets, size, v), size, key) ==
      if key == v.registration then Some(v) else Find(buckets, size, key)
  {
    if Hash(key, size) == Hash(v.registration, size) {
      UpsertBucketLookup(buckets[Hash(key, size)], v, key);
    }
  }

  /** Search after delete: the deleted key finds nothing, every other key
      finds what it found before. */
  lemma RemoveThenFind(buckets: seq<Bucket>, size: nat, contents: map<string, Vehicle>, key: string, other: string)
    requires WellFormed(buckets, size, contents)
    ensures Find(Remove(buckets, size, key), size, other) ==
      if other == key then None else Find(buckets, size, other)
  {
    if Hash(other, size) == Hash(key, size) {
      RemoveBucketLookup(buckets[Hash(key, size)], key, other);
    }
  }

  /** Replacing one bucket changes the length of the flattened list by the
      change in that bucket's length. */
  lemma {:induction false} FlattenUpdateLength(buckets: seq<Bucket>, h: nat, bucket: Bucket)
    requires h < |buckets|
    ensures |Flatten(buckets[h := bucket])| == |Flatten(buckets)| - |buckets[h]| + |bucket|
  {
    var n := |buckets|;
    var updated := buckets[h := bucket];
    if h == n - 1 {
      assert updated[..n - 1] == buckets[..n - 1];
    } else {
      assert updated[..n - 1] == buckets[..n - 1][h := bucket];
      FlattenUpdateLength(buckets[..n - 1], h, bucket);
    }
  }

  /** A record is in the flattened list exactly when it is in some bucket. */
  lemma {:induction false} FlattenMember(buckets: seq<Bucket>, v: Vehicle)
    ensures v in Flatten(buckets) <==> exists b :: 0 <= b < |buckets| && v in buckets[b]
  {
    var n := |buckets|;
    if n > 0 {
      var init := buckets[..n - 1];
      FlattenMember(init, v);
      if v in Flatten(init) {
        var b :| 0 <= b < |init| && v in init[b];
        assert buckets[b] == init[b];
      }
      if exists b :: 0 <= b < n && v in buckets[b] {
        var b :| 0 <= b < n && v in buckets[b];
        if b < n - 1 {
          assert init[b] == buckets[b];
        }
      }
    }
  }

  /** Upsert keeps the invariant, for the map with the key set to the new
      record, and adds one entry exactly when the key was absent. */
  lemma UpsertKeepsWellFormed(buckets: seq<Bucket>, size: nat, contents: map<string, Vehicle>, v: Vehicle)
    requires WellFormed(buckets, size, contents)
    ensures WellFormed(Upsert(buckets, size, v), size, contents[v.registration := v])
    ensures |Flatten(Upsert(buckets, size, v))| ==
      |Flatten(buckets)| + if v.registration in contents then 0 else 1
  {
    var h := Hash(v.registration, size);
    var nb := UpsertBucket(buckets[h], v);
    UpsertBucketInPlace(buckets[h], v);
    UpsertEntriesAgree(buckets, size, contents, v);
    UpsertStoresContents(buckets, size, contents, v);
    FindAgreesWithContents(buckets, size, contents, v.registration);
    FlattenUpdateLength(buckets, h, nb);
  }

  /** After an upsert every entry still sits in its key's bucket and is the
      updated map's record for its key. */
  lemma UpsertEntriesAgree(buckets: seq<Bucket>, size: nat, contents: map<string, Vehicle>, v: Vehicle)
    requires WellFormed(buckets, size, contents)
    ensures forall b: nat, w: Vehicle :: b < size && w in Upsert(buckets, size, v)[b] ==>
      Hash(w.registration, size) == b && w.registration in contents[v.registration := v] &&
      contents[v.registration := v][w.registration] == w
  {
    var h := Hash(v.registration, size);
    var r := Upsert(buckets, size, v);
    UpsertBucketMembers(buckets[h], v);
    forall b: nat, w: Vehicle | b < |r| && w in r[b]
      ensures Hash(w.registration, size) == b && w.registration in contents[v.registration := v] &&
        contents[v.registration := v][w.registration] == w
    {
      if b == h {
        if w != v {
          assert w in buckets[h];
        }
      } else {
        assert w in buckets[b];
      }
    }
  }

  /** After an upsert every record of the updated map is stored in its key's
      bucket. */
  lemma UpsertStoresContents(buckets: seq<Bucket>, size: nat, contents: map<string, Vehicle>, v: Vehicle)
    requires WellFormed(buckets, size, contents)
    ensures forall k :: k in contents[v.registration := v] ==>
      contents[v.registration := v][k].registration == k &&
      contents[v.registration := v][k] in Upsert(buckets, size, v)[Hash(k, size)]
  {
    var h := Hash(v.registration, size);
    var c := contents[v.registration := v];
    var r := Upsert(buckets, size, v);
    UpsertBucketMembers(buckets[h], v);
    forall k | k in c ensures c[k].registration == k && c[k] in r[Hash(k, size)] {
      if k != v.registration {
        assert contents[k] in buckets[Hash(k, size)];
      }
    }
  }

  /** Removal keeps the invariant, for the map without the key, and drops
      one entry exactly when the key was present. */
  lemma RemoveKeepsWellFormed(buckets: seq<Bucket>, size: nat, contents: map<string, Vehicle>, key: string)
    requires WellFormed(buckets, size, contents)
    ensures WellFormed(Remove(buckets, size, key), size, contents - {key})
    ensures |Flatten(Remove(buckets, size, key))| ==
      |Flatten(buckets)| - if key in contents then 1 else 0
  {
    var h := Hash(key, size);
    var old_ := buckets[h];
    var nb := RemoveBucket(old_, key);
    var r := Remove(buckets, size, key);
    var c := contents - {key};
    RemoveBucketKeepsOrder(old_, key);
    RemoveBucketMembers(old_, key);
    FindAgreesWithContents(buckets, size, contents, key);
    FlattenUpdateLength(buckets, h, nb);
    assert r == buckets[h := nb];
    forall b: nat, w: Vehicle | b < |r| && w in r[b]
      ensures Hash(w.registration, size) == b && w.registration in c && c[w.registration] == w
    {
      assert w in buckets[b];
    }
    forall k | k in c ensures c[k].registration == k && c[k] in r[Hash(k, size)] {
      assert contents[k] in buckets[Hash(k, size)];
    }
  }

  /** Entries of buckets `0 .. |buckets| - 1` hash below `|buckets|`. */
  lemma {:induction false} FlattenHashesBelow(buckets: seq<Bucket>, size: nat)
    requires size > 0
    requires forall b, v :: 0 <= b < |buckets| && v in buckets[b] ==> Hash(v.registration, size) == b
    ensures forall v :: v in Flatten(buckets) ==> Hash(v.registration, size) < |buckets|
  {
    forall v | v in Flatten(buckets) ensures Hash(v.registration, size) < |buckets| {
      FlattenMember(buckets, v);
    }
  }

  /** The flattened list has unique keys, across buckets as well as within
      them: no registration number is listed twice. */
  lemma {:induction false} FlattenKeysUnique(buckets: seq<Bucket>, size: nat)
    requires size > 0
    requires forall b :: 0 <= b < |buckets| ==> KeysUnique(buckets[b])
    requires forall b, v :: 0 <= b < |buckets| && v in buckets[b] ==> Hash(v.registration, size) == b
    ensures KeysUnique(Flatten(buckets))
  {
    var n := |buckets|;
    if n > 0 {
      var init := buckets[..n - 1];
      var last := buckets[n - 1];
      FlattenKeysUnique(init, size);
      FlattenHashesBelow(init, size);
      var a := Flatten(init);
      var s := a + last;
      forall i, j | 0 <= i < j < |s| ensures s[i].registration != s[j].registration {
        if i < |a| && j >= |a| {
          assert a[i] in a;
          assert last[j - |a|] in buckets[n - 1];
        } else if i >= |a| {
          assert s[i] == last[i - |a|] && s[j] == last[j - |a|];
        }
      }
    }
  }

  /** Unique keys make the number of entries the number of distinct keys. */
  lemma {:induction false} KeysOfUniqueSize(s: seq<Vehicle>)
    requires KeysUnique(s)
    ensures |KeysOf(s)| == |s|
  {
    if |s| > 0 {
      var init := s[..|s| - 1];
      var last := s[|s| - 1];
      KeysOfUniqueSize(init);
      assert KeysOf(s) == KeysOf(init) + {last.registration} by {
        assert s == init + [last];
      }
      assert last.registration !in KeysOf(init);
    }
  }

  /** The keys listed by the flattened table are exactly the map's keys, and
      each listed record is the map's record for its key. */
  lemma FlattenAgreesWithContents(buckets: seq<Bucket>, size: nat, contents: map<string, Vehicle>)
    requires WellFormed(buckets, size, contents)
    ensures KeysUnique(Flatten(buckets))
    ensures KeysOf(Flatten(buckets)) == contents.Keys
    ensures forall v :: v in Flatten(buckets) ==> v.registration in contents && contents[v.registration] == v
  {
    var s := Flatten(buckets);
    FlattenKeysUnique(buckets, size);
    forall v | v in s ensures v.registration in contents && contents[v.registration] == v {
      FlattenMember(buckets, v);
    }
    forall k | k in contents ensures k in KeysOf(s) {
      FlattenMember(buckets, contents[k]);
    }
  }

  /** The number of entries is the number of distinct registration numbers
      stored. */
  lemma CountIsDistinctKeys(buckets: seq<Bucket>, size: nat, contents: map<string, Vehicle>)
    requires WellFormed(buckets, size, contents)
    ensures |Flatten(buckets)| == |contents|
  {
    FlattenAgreesWithContents(buckets, size, contents);
    KeysOfUniqueSize(Flatten(buckets));
  }

  /** A table of empty buckets represents the empty map. */
  lemma EmptyWellFormed(buckets: seq<Bucket>, size: nat)
    requires size > 0 && |buckets| == size
    requires forall b :: 0 <= b < size ==> buckets[b] == []
    ensures WellFormed(buckets, size, map[])
    ensures Flatten(buckets) == []
  {
    EmptyFlatten(buckets);
  }

  lemma {:induction false} EmptyFlatten(buckets: seq<Bucket>)
    requires forall b :: 0 <= b < |buckets| ==> buckets[b] == []
    ensures Flatten(buckets) == []
  {
    if |buckets| > 0 {
      EmptyFlatten(buckets[..|buckets| - 1]);
    }
  }

  /** In a list with unique keys every record occurs at most once. */
  lemma {:induction false} UniqueKeysOccurOnce(s: seq<Vehicle>)
    requires KeysUnique(s)
    ensures forall w :: multiset(s)[w] == if w in s then 1 else 0
  {
    if |s| > 0 {
      var head, rest := s[0], s[1..];
      assert s == [head] + rest;
      UniqueTail(s);
      UniqueKeysOccurOnce(rest);
    }
  }

  /** The tail of a list with unique keys has unique keys and lacks the
      head's key. */
  lemma UniqueTail(s: seq<Vehicle>)
    requires KeysUnique(s) && |s| > 0
    ensures KeysUnique(s[1..])
    ensures s[0].registration !in KeysOf(s[1..]) && s[0] !in s[1..]
  {
    var rest := s[1..];
    forall i, j | 0 <= i < j < |rest| ensures rest[i].registration != rest[j].registration {
      assert rest[i] == s[i + 1] && rest[j] == s[j + 1];
    }
    forall w | w in rest ensures w.registration != s[0].registration {
      var j :| 0 <= j < |rest| && rest[j] == w;
      assert rest[j] == s[j + 1];
    }
  }

  /** Two tables that represent the same map, whatever their bucket counts,
      list the same records: their flattened lists are permutations of each
      other. */
  lemma SameContentsSameRecords(b1: seq<Bucket>, size1: nat, b2: seq<Bucket>, size2: nat, contents: map<string, Vehicle>)
    requires WellFormed(b1, size1, contents) && WellFormed(b2, size2, contents)
    ensures multiset(Flatten(b1)) == multiset(Flatten(b2))
  {
    var s1, s2 := Flatten(b1), Flatten(b2);
    FlattenAgreesWithContents(b1, size1, contents);
    FlattenAgreesWithContents(b2, size2, contents);
    UniqueKeysOccurOnce(s1);
    UniqueKeysOccurOnce(s2);
    forall w ensures w in s1 <==> w in s2 {
      if w in s1 {
        assert w.registration in KeysOf(s2);
        var u :| u in s2 && u.registration == w.registration;
      }
      if w in s2 {
        assert w.registration in KeysOf(s1);
        var u :| u in s1 && u.registration == w.registration;
      }
    }
    assert forall w :: multiset(s1)[w] == multiset(s2)[w];
  }
}
