# Vehicle registration store

A Dafny model of `VehicleHashTable`, the record store of a small vehicle
registration service. The store is a hash table with a fixed number of
buckets and separate chaining, keyed by registration number. Each bucket is
an ordered list of `(registration_number, owner_name, vehicle_type, year)`
tuples. Its operations are upsert (`insert`, `insert_without_save`), point
lookup (`search`), deletion (`delete`) and enumeration (`get_all_vehicles`).
It also has whole-snapshot persistence: `save_data` writes the flattened list
of records, and `load_data` replays a stored list through the upsert.

Modules:

- `Hashing` (Hashing.dfy): the base-31 rolling hash `Hash`, reduced modulo
  the bucket count after every character and starting from 0. A reference
  `Polynomial` gives the unreduced value, and a lemma shows that reducing once
  at the end gives the same index.
- `Buckets` (Buckets.dfy): the `Vehicle` record and the first-match scan over
  a bucket (`FindIndex`, `Lookup`). It defines the bucket after an upsert
  (`UpsertBucket`: overwrite in place or append) and after a removal
  (`RemoveBucket`: drop the first match). It lifts these to the whole table
  (`Upsert`, `Remove`, `Find`) and defines `Flatten`, the bucket-by-bucket
  list. `WellFormed` is the table invariant. It says every entry sits in the
  bucket its key hashes to, keys are unique within a bucket, and the buckets
  represent a key-to-record map.
- `Persistence` (Persistence.dfy): the stored file (`StoredFile`,
  `StoredEntry`), the list `save_data` dumps (`Serialize`), and the load loop
  as a fold of upserts, over the map (`Replay`, `LoadInto`) and over the
  buckets (`ReplayBuckets`, `LoadBuckets`).
- `VehicleStore` (VehicleHashTable.dfy): the class `VehicleHashTable`. It has a
  constant `size` and a constant `table: array<Bucket>`, whose slots are
  reassigned in place. It also has a mutable `count` and a ghost `Contents`
  map. `Valid()` is `WellFormed` plus "`count` is the number of entries".
  `HashFunction`, `InsertWithoutSave`, `Search`, `Delete`,
  `GetAllVehicles` and `LoadData` are loops in the shape of the source's
  loops, proved against the functions above. `Insert`, `Save` and the
  constructor call them in sequence.

File I/O is replaced by values. The constructor and `LoadData` take a
`StoredFile`: `Absent` (no file), `Unreadable` (open or JSON parsing fails),
or `Parsed(entries)`. In `Parsed`, each entry is `Complete(vehicle)` or
`Malformed` (an element the replay raises on). `Save`, `Insert` and `Delete`
return the list that `save_data` would write. A failed write leaves the table
as it is, and the model's `Save` never changes the table.

A malformed entry in the middle of the file does not empty the store. The
`try`/`except` in `load_data` (app.py:42-54) wraps the whole replay loop, so
the records upserted before the malformed entry stay in the table, and only
the entries after it are dropped (`Replay`, `ReplayBuckets`,
`ReplayStopsAtMalformed`). A file that cannot be opened or parsed leaves the
table as it was.

## Model

| member | source | states |
|---|---|---|
| Hashing.Hash | app.py:15-20 | the bucket index is in `[0, size)` for every key when `size > 0` |
| Hashing.HashIsPolynomialMod | app.py:15-20 | reducing modulo `size` at every step gives the same index as reducing the whole base-31 polynomial of the code points once, so the index depends only on the key and `size` |
| Hashing.HashAppend | app.py:17-19 | one more character takes one more step `(h * 31 + ord(c)) % size` from the hash of the prefix |
| Hashing.HashVector | app.py:15-20 | regression vector: `"AB12CD"` hashes to 55 in a 100-bucket table |
| Buckets.UpsertBucket | app.py:61-67 | no contract of its own: the bucket after an upsert, overwrite at the first match or append; `UpsertBucketInPlace`, `UpsertBucketMembers` and `UpsertBucketLookup` state what it does |
| Buckets.RemoveBucket | app.py:95-97 | no contract of its own: the bucket after a delete, the first match dropped; `RemoveBucketKeepsOrder`, `RemoveBucketMembers` and `RemoveBucketLookup` state what it does |
| Buckets.Upsert | app.py:58-69 | the table keeps its `size` buckets and only the key's bucket changes; `UpsertKeepsWellFormed` and `UpsertThenFind` state the effect |
| Buckets.Remove | app.py:93-98 | the table keeps its `size` buckets and only the key's bucket changes; `RemoveKeepsWellFormed` and `RemoveThenFind` state the effect |
| Buckets.Find | app.py:79-89 | a record found has the searched key; `FindAgreesWithContents` states that it is the map's record, and none exactly when the key is absent |
| Buckets.Flatten | app.py:103-114 | no contract of its own: the buckets' entries in index order; `FlattenMember`, `FlattenKeysUnique` and `FlattenAgreesWithContents` state what it lists |
| Buckets.FlattenMember | app.py:105-113 | a record is listed exactly when some bucket holds it |
| Buckets.SameContentsSameRecords | app.py:103-114 | two tables representing the same map, of any bucket counts, list the same records as a multiset |
| Buckets.FindIndex | app.py:61-62 | the scan returns the position of the first entry with the key, or none exactly when no entry has it |
| Buckets.Lookup | app.py:81-89 | the scan returns a record of the bucket with the searched key, and none exactly when no entry has that key |
| Buckets.UpsertBucketInPlace | app.py:61-69 | on a present key the upsert keeps the bucket's length, overwrites the entry with that key at its position and leaves every other entry where it was; on an absent key it appends the record at the end; keys stay unique |
| Buckets.UpsertBucketLookup | app.py:56-69 | after an upsert, the scan for the key finds the new record and the scan for any other key finds what it found before |
| Buckets.RemoveBucketKeepsOrder | app.py:95-97 | removing the first match from a bucket with unique keys equals filtering out that key, order kept; the bucket shrinks by one when the key was present and is unchanged otherwise |
| Buckets.RemoveBucketLookup | app.py:93-100 | after a removal, the scan for the removed key finds nothing and the scan for any other key finds what it found before |
| Buckets.FindAgreesWithContents | app.py:77-89 | on a well-formed table, the scan of the key's bucket returns the map's record for the key, and nothing exactly when the map lacks the key |
| Buckets.UpsertThenFind | app.py:56-89 | after inserting `(k, o, t, y)`, search for `k` gives exactly that record and search for any other key gives the same result as before |
| Buckets.RemoveThenFind | app.py:77-101 | after deleting `k`, search for `k` finds nothing and search for any other key gives the same result as before |
| Buckets.UpsertKeepsWellFormed | app.py:56-69 | upsert keeps the table invariant for the map with the key set to the new record, and adds one entry exactly when the key was absent |
| Buckets.RemoveKeepsWellFormed | app.py:91-101 | delete keeps the table invariant for the map without the key, and removes one entry exactly when the key was present |
| Buckets.FlattenKeysUnique | app.py:103-114 | the bucket-by-bucket list of a table whose entries sit in their key's bucket has no registration number twice, across buckets as well as within one |
| Buckets.FlattenAgreesWithContents | app.py:103-114 | the listed keys are exactly the map's keys, and each listed record is the map's record for its key |
| Buckets.CountIsDistinctKeys | app.py:66-68 | the number of entries equals the number of distinct registration numbers stored |
| Buckets.EmptyWellFormed | app.py:9-11 | `size` empty buckets form a valid table for the empty map, and list nothing |
| Persistence.Serialize | app.py:24-32 | the saved list has one complete entry per record, in the same order |
| Persistence.Replay | app.py:42-54 | loading never removes a key the table already held; `ReplayDistinct`, `ReplayLastWins` and `ReplayStopsAtMalformed` state the rest |
| Persistence.LoadInto | app.py:42-54 | loading, whatever the file holds, never removes a key; a missing or unreadable file changes nothing |
| Persistence.ReplayBuckets | app.py:46-52 | the table keeps its `size` buckets; `ReplayBucketsWellFormed` ties it to `Replay` |
| Persistence.LoadBuckets | app.py:42-54 | a missing or unreadable file leaves every bucket as it was |
| Persistence.ReplayBucketsWellFormed | app.py:46-52 | replaying entries over the buckets of a table representing `m` gives a table representing the map replay of `m` |
| Persistence.LoadBucketsWellFormed | app.py:42-54 | the same for a whole file |
| Persistence.ReplaySingleBucket | app.py:46-67 | new distinct keys replayed into one bucket are appended in the listed order |
| Persistence.LoadSingleBucketOrder | app.py:42-67 | a one-bucket table loaded from records with distinct keys lists them in the file's order |
| Persistence.ReplayDistinct | app.py:46-52 | replaying records with distinct keys adds exactly those keys, each with its listed record, and keeps every other key |
| Persistence.ReplayLastWins | app.py:46-52 | loading upserts: when a key is listed more than once, the last listing wins |
| Persistence.ReplayStopsAtMalformed | app.py:42-54 | the first malformed entry ends the load; what was loaded before it stays and nothing after it is read |
| Persistence.SaveLoadRoundTrip | app.py:22-54 | loading the list `save_data` writes into an empty table rebuilds the same key-to-record map, whatever the new bucket count |
| VehicleStore.VehicleHashTable.CountIsSize | app.py:11 | on a valid table, `count` is the number of stored keys |
| VehicleStore.VehicleHashTable.constructor | app.py:8-13 | builds `size` empty buckets (100 by default) with `count` 0, then loads the file; the buckets are the replay of the file over empty buckets, the result is valid and holds the loaded map |
| VehicleStore.VehicleHashTable.HashFunction | app.py:15-20 | the loop computes exactly `Hash(key, size)` |
| VehicleStore.VehicleHashTable.InsertWithoutSave | app.py:56-69 | the key's bucket becomes the upserted bucket and no other bucket changes; the map gets the key set to the new record; `count` grows by one exactly when the key was new; returns true |
| VehicleStore.VehicleHashTable.Insert | app.py:71-75 | the same upsert, then the save of the new table's list; returns true |
| VehicleStore.VehicleHashTable.Search | app.py:77-89 | returns the stored record for the key, or none exactly when no entry in any bucket has that key; changes nothing |
| VehicleStore.VehicleHashTable.Delete | app.py:91-101 | on a present key, removes its entry from its bucket order-preservingly, decrements `count`, saves and returns true; on an absent key, returns false, changes nothing and writes nothing |
| VehicleStore.VehicleHashTable.GetAllVehicles | app.py:103-114 | returns the buckets' entries concatenated in index order; its length is `count`, no key appears twice, and each entry is the stored record for its key |
| VehicleStore.VehicleHashTable.Save | app.py:22-38 | returns the same list `get_all_vehicles` builds, and loading it gives back the table's map |
| VehicleStore.VehicleHashTable.LoadData | app.py:40-54 | upserts each complete entry of a parsed file without saving and stops at the first malformed one, both on the buckets and on the map; a missing or unreadable file leaves buckets and map unchanged |
| VehicleStore.Restart | app.py:8-54 | saving a store and building a new one, of any bucket count, from the saved file gives a fresh store with the same map, the same `count`, and the same records listed as a multiset |
| VehicleStore.LoadThenList | app.py:40-114 | a one-bucket store built from a file of records with distinct keys lists exactly those records, in the file's order |

## Left out

- The web layer: the Flask app and its routes, templates, JSON requests and
  responses, uppercasing of the key, the empty-field checks, and the port
  setup (app.py:1-5, app.py:116-171). They only call the four operations.
- The global `vehicle_db` instance (app.py:117): the model builds stores
  explicitly.
- File I/O: `open`, `json.dump`, `json.load`, `os.path.exists` and the data
  file's name. Loading takes a `StoredFile` value, and saving returns the list
  to be written. A write failure, which the source swallows, leaves the table
  unchanged, as every model `Save` does.
- JSON parsing. A parsed entry is either complete or `Malformed`. Field types
  are not modelled: `year` (and the other non-key fields) are strings here,
  while any JSON value round-trips in the source.
- A bucket count of 0: the constructor's `requires size > 0` excludes it,
  because in the source every hash then divides by zero.
- Code points: a Dafny `char` is a Unicode scalar value, and `c as int` plays
  the role of `ord`. Python strings can also hold lone surrogates, which the
  model cannot represent.
- Restart: it proves the same map, `count` and listed records after a save
  and reload. It does not state the reverse direction, that saving a loaded
  arbitrary list gives back that list as a multiset. That holds only for
  lists with distinct keys and no malformed entries, and is stated only for a
  single bucket (`LoadSingleBucketOrder`).
- Concurrency: the source has no locking, and the model is sequential.
