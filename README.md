# ArcFace image store: a Dafny model of the content-addressed embedding cache

The ArcFace web application stores submitted images together with their
ArcFace embedding. `ServerFunctions` (in `ArcFace_Web_Client/Server/images.cs`)
is a cache in front of an SQLite table of `Database.Image` records:

- `GetEmbedding` hashes the image bytes. If a record with that hash exists,
  it returns that record's id. Otherwise it computes the embedding, stores a new
  record and returns its id. Any failure returns -1.
- `GetAllImages` lists all ids. `GetImageByID` looks one record up.
- `DeleteImages` erases every record. If the cancellation token is set once
  the erase is saved, it puts the buffered records back.
- `ControllerFunctions` wraps each of these. It checks the token after the
  call and tags the result with success or failure, except `DeleteAllImages`,
  which returns `DeleteImages`' result as it is.

The helpers come from `ArcFace_Web_Client/DatabaseClassLib/Class1.cs`.
`Image.GetHash` renders a SHA-256 digest as upper-case hex. `Converters`
copies a float array to bytes and back.

Layout:

- `wrappers.dfy`, module `Wrappers`: `Option`, `Result` and the error kinds.
- `bytes.dfy`, module `Bytes`: the `byte` type (`bv8`).
- `hash.dfy`, module `Hash`: the "X2" hex rendering, its inverse `ParseHex`,
  both `GetHash` overloads. The digest is a parameter `sha` of type `Hasher`.
  A `Hasher` is any function from bytes to 32 bytes.
- `codec.dfy`, module `Codec`: floats as 32-bit patterns, laid out in
  little-endian order. Holds the value-level `Encode`/`Decode` and the array
  methods `FloatToByte`/`ByteToFloat`.
- `records.dfy`, module `Records`: the `Image` record and the store as a
  sequence of records. Holds the store invariant `WellFormed` (ids unique and
  positive, hashes unique and equal to the hash of the data, embeddings a whole
  number of floats). `InsertOrFetch` is the value-level meaning of
  `GetEmbedding`, and the lemmas about it relate several calls.
- `server.dfy`, module `Server`: the classes `ServerFunctions` (field `images`,
  methods with loops) and `ControllerFunctions`.

Modelling choices:

- Each section the source runs under its semaphore is one step of a method,
  so operations run one after another.
- The outcome of loading, resizing and embedding an image is an input,
  `Pipeline = Embedded(vector) | Failed`.
- The id the database assigns to a new record is an input, `newId`. The model
  assumes it is positive and not in use.
- The table the server opens is assumed well formed. An empty table, as
  `EnsureCreated` (Class1.cs:92) makes it, is well formed. A table with
  duplicate hashes, which the race under "## Left out" can produce, is outside
  the model.
- A cancellation token is the `bool` it reads as at the point where the source
  samples it.
- A file system is a map from path to contents. A missing path is the I/O
  error `File.ReadAllBytes` throws.
- C# `ControllerFunctions` inherits from `ServerFunctions`. The model uses
  composition instead: a controller holds the server it forwards to.

Notes on the code:

- The code does not re-check the hash before `db.Add` (images.cs:78-90). Run
  one call at a time, the check at images.cs:63-65 is enough:
  `InsertPreservesWellFormed` proves no duplicate hash arises.
- After inserting, the code reads the new record back by hash
  (images.cs:91) and returns the first match. The model does the same.
  `InsertMiss` proves this is the new record.
- `PostImage` returns `(false, -1)` when the token is cancelled
  (images.cs:184-186). By then `GetEmbedding` has already run: on a miss with a
  working pipeline, the new record is stored even though `PostImage` reports
  `(false, -1)`. `PostImage`'s contract says so.

## Model

| member | source | states |
|---|---|---|
| Hash.ByteHex | ArcFace_Web_Client/DatabaseClassLib/Class1.cs:59 | "X2" renders a byte as exactly two upper-case hex digits |
| Hash.Hex | ArcFace_Web_Client/DatabaseClassLib/Class1.cs:58-60 | the concatenated rendering is two characters per digest byte |
| Hash.HexAt | ArcFace_Web_Client/DatabaseClassLib/Class1.cs:58-60 | characters 2i and 2i+1 are the high and low nibble digits of byte i, in order |
| Hash.AllHexDigits | ArcFace_Web_Client/DatabaseClassLib/Class1.cs:58-60 | every character of the rendering is in 0-9A-F |
| Hash.ParseHexOfHex | ArcFace_Web_Client/DatabaseClassLib/Class1.cs:58-60 | parsing the rendering gives back the digest bytes |
| Hash.HexInjective | ArcFace_Web_Client/DatabaseClassLib/Class1.cs:58-60 | two digests render to the same string if and only if they are equal |
| Hash.GetHash | ArcFace_Web_Client/DatabaseClassLib/Class1.cs:54-62 | the hash of a byte array is 64 characters over 0-9A-F |
| Hash.GetHashMatchesDigest | ArcFace_Web_Client/DatabaseClassLib/Class1.cs:54-62 | two byte arrays have equal hashes if and only if their SHA-256 digests are equal |
| Hash.GetHashOfFile | ArcFace_Web_Client/DatabaseClassLib/Class1.cs:42-51 | hashing a path succeeds if and only if the file can be read |
| Hash.OverloadsAgree | ArcFace_Web_Client/DatabaseClassLib/Class1.cs:42-62 | the path overload gives the byte overload's hash of the file's contents |
| Hash.FileHashDeterministic | ArcFace_Web_Client/DatabaseClassLib/Class1.cs:42-51 | files with equal contents have equal hashes |
| Codec.WordBytes | ArcFace_Web_Client/DatabaseClassLib/Class1.cs:71-72 | each float occupies exactly four bytes of the copy |
| Codec.WordRoundTrip | ArcFace_Web_Client/DatabaseClassLib/Class1.cs:69-80 | reading back a float's four bytes gives the same bit pattern |
| Codec.Encode | ArcFace_Web_Client/DatabaseClassLib/Class1.cs:69-73 | the byte image of n floats is 4n bytes long |
| Codec.Words | ArcFace_Web_Client/DatabaseClassLib/Class1.cs:75-79 | a byte image of length 4n holds n floats |
| Codec.Decode | ArcFace_Web_Client/DatabaseClassLib/Class1.cs:75-80 | decoding succeeds if and only if the length is a multiple of 4, and fails with a length error otherwise |
| Codec.EncodeAt | ArcFace_Web_Client/DatabaseClassLib/Class1.cs:71-72 | byte k of the image is byte k mod 4 of float k div 4 |
| Codec.WordsAt | ArcFace_Web_Client/DatabaseClassLib/Class1.cs:77-78 | float i of the decoding is made of bytes 4i to 4i+3 |
| Codec.DecodeEncode | ArcFace_Web_Client/DatabaseClassLib/Class1.cs:69-80 | decoding an encoded vector returns it bit for bit |
| Codec.EncodeDecode | ArcFace_Web_Client/DatabaseClassLib/Class1.cs:69-80 | encoding the decoding of bytes whose length is a multiple of 4 returns those bytes |
| Codec.FloatToByte | ArcFace_Web_Client/DatabaseClassLib/Class1.cs:69-74 | returns a fresh array of 4n bytes holding the encoding of the floats |
| Codec.ByteToFloat | ArcFace_Web_Client/DatabaseClassLib/Class1.cs:75-80 | returns a fresh array of length/4 floats holding the decoding, and a length error exactly when the length is not a multiple of 4 |
| Records.FirstWithHash | ArcFace_Web_Client/Server/images.cs:63-65 | the index of the first record with the hash, and none if and only if no record has it |
| Records.FirstWithId | ArcFace_Web_Client/Server/images.cs:131-135 | the index of the first record with the id, and none if and only if no record has it |
| Records.Ids | ArcFace_Web_Client/Server/images.cs:111-114 | one id per record, element i being the id of record i |
| Records.FindById | ArcFace_Web_Client/Server/images.cs:131-135 | null if and only if no record has the id, otherwise a stored record with that id |
| Records.InsertOrFetch | ArcFace_Web_Client/Server/images.cs:51-101 | the store and id GetEmbedding produces: prior records kept and at most one appended, and any id other than -1 is that of a stored record with the image's hash; hit, miss and failure are pinned down by InsertHit, InsertMiss and InsertFail |
| Records.InsertHit | ArcFace_Web_Client/Server/images.cs:62-65 | when a record has the image's hash, the first such record's id is returned and the store is unchanged |
| Records.InsertMiss | ArcFace_Web_Client/Server/images.cs:70-91 | when no record has the hash, exactly the record {newId, name, data, hash, encoded embedding} is appended and newId is returned |
| Records.InsertFail | ArcFace_Web_Client/Server/images.cs:73-74 | when no record has the hash and the pipeline fails, -1 is returned and the store is unchanged |
| Records.InsertPreservesWellFormed | ArcFace_Web_Client/Server/images.cs:62-91 | with a fresh id, inserting keeps ids and hashes unique and every record consistent with its data |
| Records.AppendPreservesWellFormed | ArcFace_Web_Client/Server/images.cs:81-90 | appending a consistent record with a new id and a new hash keeps the store well formed |
| Records.InsertIdValid | ArcFace_Web_Client/Server/images.cs:95-100 | a result other than -1 is a positive id of a stored record |
| Records.CountUnique | ArcFace_Web_Client/Server/images.cs:63-65 | in a store with unique hashes, a present hash is held by exactly one record |
| Records.InsertIdempotent | ArcFace_Web_Client/Server/images.cs:51-101 | a second insert of the same bytes under any name returns the same id, changes nothing, and one record holds the hash |
| Records.LookupAfterInsert | ArcFace_Web_Client/Server/images.cs:81-91 | after a miss, looking up newId finds the new record |
| Records.LookupFindsRecord | ArcFace_Web_Client/Server/images.cs:131-135 | in a well-formed store, looking up a record's id finds that record |
| Records.Scenario | ArcFace_Web_Client/Server/images.cs:51-101 | F1 gives id 1, F1 under another name gives id 1 without a new record, F2 gives id 2, and the ids are then [1, 2] |
| Server.ServerFunctions.constructor | ArcFace_Web_Client/Server/images.cs:19-23 | a server over a well-formed database starts valid |
| Server.ServerFunctions.GetEmbedding | ArcFace_Web_Client/Server/images.cs:51-101 | the new store and the returned id are those of InsertOrFetch, and the store invariant is kept |
| Server.ServerFunctions.GetAllImages | ArcFace_Web_Client/Server/images.cs:104-119 | returns one id per record, in enumeration order, and changes nothing |
| Server.ServerFunctions.GetImageByID | ArcFace_Web_Client/Server/images.cs:122-144 | returns the first record with the id, or none, and changes nothing |
| Server.ServerFunctions.DeleteImages | ArcFace_Web_Client/Server/images.cs:147-175 | uncancelled: returns 1 and the store is empty; cancelled: returns 0 and the store holds exactly its prior records |
| Server.ControllerFunctions.constructor | ArcFace_Web_Client/Server/images.cs:179 | a controller forwards to its server |
| Server.ControllerFunctions.PostImage | ArcFace_Web_Client/Server/images.cs:182-188 | the store changes as GetEmbedding changes it; the result is (false, -1) if cancelled, else (true, id) |
| Server.ControllerFunctions.GetAllImages | ArcFace_Web_Client/Server/images.cs:191-197 | (false, null) if cancelled, else (true, the ids of all records) |
| Server.ControllerFunctions.TryGetImageByID | ArcFace_Web_Client/Server/images.cs:200-206 | (false, null) if cancelled, else (true, the lookup's result) |
| Server.ControllerFunctions.DeleteAllImages | ArcFace_Web_Client/Server/images.cs:209-212 | exactly DeleteImages' result and effect |

## Left out

- The semaphore `Sem` (images.cs:17, 22, 57, 67, 75, 93 and so on) is not modelled, because it is concurrency. Each gated section is one step of a method.
- Concurrent races are not modelled. Two calls can both miss the hash check between images.cs:67 and 75 and insert duplicates. Also, an exception thrown inside a gated section never releases the semaphore.
- `GetValidSizeImage` (images.cs:34-48) is left out, because the ImageSharp crop and resize is a foreign library working on pixels.
- `ArcFace_Functions.CreateEmbedding` (images.cs:74, 87) is left out because it is a neural-network computation. Together with `Image.Load`, its outcome is the `Pipeline` input.
- SHA-256 internals are left out, because `SHA256.ComputeHash` is a library call. The model is generic in any function to 32 bytes.
- `File.ReadAllBytes` is left out because it is I/O. A file system is a map from paths to contents.
- The EF Core / SQLite `Context` (Class1.cs:83-95) is left out. This covers connections, the on-disk format and how ids are generated; the store is a sequence of records and the new id an input.
- Database failures are not modelled, because they come from the persistence engine. So the `catch` paths are absent that return -1 from `GetEmbedding` and `DeleteImages`, and null from `GetImageByID`, on a store error.
- `MakeCollection` (images.cs:25-31) is left out as a plain snapshot of the table. The dead initial value `{1, 2}` at images.cs:106 is also left out, because it is always overwritten.
- `Convert.FromBase64String` (images.cs:184) and `PostData` are left out, because they are transport decoding. `PostImage` takes the decoded name and bytes.
- IEEE-754 semantics are not modelled: floats are only 32-bit patterns, never compared or computed with.
- Codec.FloatToByte: big-endian hosts are not modelled. The byte layout assumes little-endian memory, as on the platforms .NET runs on. Arrays of 2^29 or more floats are not modelled either: there the 32-bit product `FloatArray.Length * 4` (Class1.cs:71) overflows, giving a negative size that throws or, from 2^30 floats on, a wrapped size such as an empty array with no error, whereas the model always returns 4n bytes.
