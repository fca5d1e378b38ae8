/** The vehicle registration store: a fixed number of buckets, each an
    ordered list of records, updated in place by upsert and delete, together
    with a live count of the records it holds. */
module VehicleStore {
  import opened Hashing
  import opened Buckets
  import opened Persistence

  /** The bucket count the store is built with when none is given. */
  const DefaultSize: nat := 100

  class VehicleHashTable {
    /** The number of buckets, fixed for the table's lifetime. */
    const size: nat
    /** The buckets; each slot is reassigned as its list changes. */
    const table: array<Bucket>
    /** The number of records stored, kept up to date by every update. */
    var count: nat
    /** The key-to-record map the buckets represent. */
    ghost var Contents: map<string, Vehicle>

    /** The table invariant: every entry sits in the bucket its key hashes
        to, keys are unique, the buckets represent `Contents`, and `count`
        is the number of entries. */
    ghost predicate Valid()
      reads this, table
    {
      && table.Length == size
      && WellFormed(table[..], size, Contents)
      && count == |Flatten(table[..])|
    }

    /** `count` is the number of distinct registration numbers stored. */
    lemma CountIsSize()
      requires Valid()
      ensures count == |Contents|
    {
      CountIsDistinctKeys(table[..], size, Contents);
    }

    /** `VehicleHashTable(size=100)`: `size` empty buckets, then `load_data`
        from whatever the data file holds. */
    constructor (file: StoredFile, size: nat := DefaultSize)
      requires size > 0
      ensures Valid() && fresh(table)
      ensures this.size == size
      ensures table[..] == LoadBuckets(seq(size, _ => []), size, file)
      ensures Contents == LoadInto(map[], file)
    {
      this.size := size;
      table := new Bucket[size](_ => []);
      count := 0;
      Contents := map[];
      new;
      assert table[..] == seq(size, _ => []);
      EmptyWellFormed(table[..], size);
      LoadData(file);
    }

    /** `hash_function`: the loop that computes the bucket index. */
    method HashFunction(registration: string) returns (h: nat)
      requires size > 0
      ensures h == Hash(registration, size)
    {
      h := 0;
      for i := 0 to |registration|
        invariant h == Hash(registration[..i], size)
      {
        HashAppend(registration[..i], registration[i], size);
        assert registration[..i] + [registration[i]] == registration[..i + 1];
        h := (h * Base + registration[i] as int) % size;
      }
      assert registration[..|registration|] == registration;
    }

    /** `insert_without_save`: upsert into the key's bucket. An entry with
        the key is overwritten where it stands and `count` is unchanged;
        otherwise the record is appended and `count` goes up by one. No other
        bucket changes, and the result is always true. */
    method InsertWithoutSave(registration: string, owner: string, kind: string, year: string) returns (ok: bool)
      requires Valid()
      modifies this, table
      ensures Valid()
      ensures ok
      ensures table[..] == Upsert(old(table[..]), size, Vehicle(registration, owner, kind, year))
      ensures Contents == old(Contents)[registration := Vehicle(registration, owner, kind, year)]
      ensures count == old(count) + if registration in old(Contents) then 0 else 1
    {
      var v := Vehicle(registration, owner, kind, year);
      ghost var before := table[..];
      ghost var contents := Contents;
      var index := HashFunction(registration);
      var bucket := table[index];
      var i := 0;
      while i < |bucket|
        invariant 0 <= i <= |bucket|
        invariant forall j :: 0 <= j < i ==> bucket[j].registration != registration
      {
        if bucket[i].registration == registration {
          FirstMatch(bucket, registration, i);
          FindAgreesWithContents(before, size, contents, registration);
          UpsertKeepsWellFormed(before, size, contents, v);
          table[index] := bucket[i := v];
          assert table[..] == Upsert(before, size, v);
          Contents := Contents[registration := v];
          return true;
        }
        i := i + 1;
      }
      FindAgreesWithContents(before, size, contents, registration);
      UpsertKeepsWellFormed(before, size, contents, v);
      assert FindIndex(bucket, registration).None?;
      table[index] := bucket + [v];
      assert table[..] == Upsert(before, size, v);
      count := count + 1;
      Contents := Contents[registration := v];
      return true;
    }

    /** `insert`: the upsert, then `save_data`; `written` is the list the
        save writes. */
    method Insert(registration: string, owner: string, kind: string, year: string)
      returns (ok: bool, written: seq<Vehicle>)
      requires Valid()
      modifies this, table
      ensures Valid()
      ensures ok
      ensures table[..] == Upsert(old(table[..]), size, Vehicle(registration, owner, kind, year))
      ensures Contents == old(Contents)[registration := Vehicle(registration, owner, kind, year)]
      ensures count == old(count) + if registration in old(Contents) then 0 else 1
      ensures written == Flatten(table[..])
    {
      ok := InsertWithoutSave(registration, owner, kind, year);
      written := Save();
    }

    /** `search`: the record stored under the key, or None exactly when no
        entry of any bucket has that key. Nothing changes. */
    method Search(registration: string) returns (r: Option<Vehicle>)
      requires Valid()
      ensures r == Find(table[..], size, registration)
      ensures r == if registration in Contents then Some(Contents[registration]) else None
      ensures r.None? <==>
        forall b, j :: 0 <= b < table.Length && 0 <= j < |table[b]| ==> table[b][j].registration != registration
    {
      FindAgreesWithContents(table[..], size, Contents, registration);
      var index := HashFunction(registration);
      var bucket := table[index];
      for i := 0 to |bucket|
        invariant forall j :: 0 <= j < i ==> bucket[j].registration != registration
      {
        if bucket[i].registration == registration {
          FirstMatch(bucket, registration, i);
          assert table[..][index] == bucket;
          return Some(bucket[i]);
        }
      }
      forall b, j | 0 <= b < table.Length && 0 <= j < |table[b]|
        ensures table[b][j].registration != registration
      {
        assert table[b][j] in table[..][b];
      }
      return None;
    }

    /** `delete`: when the key is present, its entry is removed from its
        bucket, the other entries keep their order, `count` goes down by one
        and `save_data` writes `written`; when it is absent, nothing changes
        and nothing is written. */
    method Delete(registration: string) returns (deleted: bool, written: Option<seq<Vehicle>>)
      requires Valid()
      modifies this, table
      ensures Valid()
      ensures deleted == (registration in old(Contents))
      ensures table[..] == Remove(old(table[..]), size, registration)
      ensures Contents == old(Contents) - {registration}
      ensures count == if deleted then old(count) - 1 else old(count)
      ensures !deleted ==> table[..] == old(table[..])
      ensures written == if deleted then Some(Flatten(table[..])) else None
    {
      ghost var before := table[..];
      ghost var contents := Contents;
      var index := HashFunction(registration);
      var bucket := table[index];
      var i := 0;
      while i < |bucket|
        invariant 0 <= i <= |bucket|
        invariant forall j :: 0 <= j < i ==> bucket[j].registration != registration
      {
        if bucket[i].registration == registration {
          FirstMatch(bucket, registration, i);
          FindAgreesWithContents(before, size, contents, registration);
          RemoveKeepsWellFormed(before, size, contents, registration);
          table[index] := bucket[..i] + bucket[i + 1..];
          assert table[..] == Remove(before, size, registration);
          count := count - 1;
          Contents := Contents - {registration};
          var saved := Save();
          return true, Some(saved);
        }
        i := i + 1;
      }
      FindAgreesWithContents(before, size, contents, registration);
      assert FindIndex(bucket, registration).None?;
      assert Contents - {registration} == Contents;
      return false, None;
    }

    /** `get_all_vehicles`: every record, bucket by bucket in index order and
        in order within each bucket. The list has one entry per stored key,
        so its length is `count` and no key appears twice. */
    method GetAllVehicles() returns (vehicles: seq<Vehicle>)
      requires Valid()
      ensures vehicles == Flatten(table[..])
      ensures |vehicles| == count == |Contents|
      ensures KeysUnique(vehicles)
      ensures forall v :: v in vehicles ==> v.registration in Contents && Contents[v.registration] == v
    {
      vehicles := [];
      for b := 0 to table.Length
        invariant vehicles == Flatten(table[..b])
      {
        var bucket := table[b];
        for j := 0 to |bucket|
          invariant vehicles == Flatten(table[..b]) + bucket[..j]
        {
          vehicles := vehicles + [bucket[j]];
        }
        assert table[..b + 1][..b] == table[..b];
        assert bucket[..|bucket|] == bucket;
      }
      assert table[..table.Length] == table[..];
      FlattenAgreesWithContents(table[..], size, Contents);
      CountIsDistinctKeys(table[..], size, Contents);
    }

    /** `save_data` without the file write: the list it dumps, which is the
        list `get_all_vehicles` builds. Loading that list into an empty table
        gives back the same key-to-record map. */
    method Save() returns (written: seq<Vehicle>)
      requires Valid()
      ensures written == Flatten(table[..])
      ensures LoadInto(map[], Parsed(Serialize(written))) == Contents
    {
      written := GetAllVehicles();
      SaveLoadRoundTrip(table[..], size, Contents);
    }

    /** `load_data`: each complete entry of a parsed file is upserted without
        a save; the first malformed entry ends the load, keeping what was
        loaded before it; a missing or unreadable file changes nothing. */
    method LoadData(file: StoredFile)
      requires Valid()
      modifies this, table
      ensures Valid()
      ensures table[..] == LoadBuckets(old(table[..]), size, file)
      ensures Contents == LoadInto(old(Contents), file)
    {
      match file
      case Parsed(entries) =>
        var i := 0;
        while i < |entries|
          invariant 0 <= i <= |entries|
          invariant Valid()
          invariant ReplayBuckets(table[..], size, entries[i..]) == ReplayBuckets(old(table[..]), size, entries)
          invariant Replay(Contents, entries[i..]) == Replay(old(Contents), entries)
        {
          assert entries[i..][1..] == entries[i + 1..];
          match entries[i]
          case Malformed =>
            break;
          case Complete(v) =>
            var _ := InsertWithoutSave(v.registration, v.owner, v.kind, v.year);
          i := i + 1;
        }
      case _ =>
    }
  }

  /** A process restart: the store is saved, and a new store, with any
      bucket count, is built from the saved file. It holds the same records
      and the same count, and `get_all_vehicles` lists the same records,
      possibly in another order. */
  method Restart(t: VehicleHashTable, size: nat) returns (t': VehicleHashTable)
    requires t.Valid() && size > 0
    ensures fresh(t') && fresh(t'.table)
    ensures t'.Valid() && t'.size == size
    ensures t'.Contents == t.Contents && t'.count == t.count
    ensures multiset(Flatten(t'.table[..])) == multiset(Flatten(t.table[..]))
  {
    var written := t.Save();
    t' := new VehicleHashTable(Parsed(Serialize(written)), size);
    t.CountIsSize();
    t'.CountIsSize();
    SameContentsSameRecords(t'.table[..], size, t.table[..], t.size, t.Contents);
  }

  /** A one-bucket store built from a file of records with distinct keys
      lists them in the order the file gives them. */
  method LoadThenList(vehicles: seq<Vehicle>) returns (all: seq<Vehicle>)
    requires KeysUnique(vehicles)
    ensures all == vehicles
  {
    var t := new VehicleHashTable(Parsed(Serialize(vehicles)), 1);
    assert seq<Bucket>(1, _ => []) == [[]];
    LoadSingleBucketOrder(vehicles);
    all := t.GetAllVehicles();
  }
}
