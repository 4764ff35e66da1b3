/**
 * ServerClasses.ServerFunctions and ServerClasses.ControllerFunctions.
 *
 * The database is the field `images`, the records in enumeration order.
 * Each section the source runs under its semaphore is one step of a
 * method here, so the methods run one at a time. The digest function,
 * the image pipeline's outcome and the cancellation token's state are
 * inputs.
 */
module Server {
  import opened Wrappers
  import opened Bytes
  import opened Hash
  import opened Codec
  import opened Records

  class ServerFunctions {
    /** SHA-256, fixed for the lifetime of the server. */
    const sha: Hasher
    /** The contents of the image table, in enumeration order. */
    var images: seq<Image>

    ghost predicate Valid()
      reads this
    {
      WellFormed(sha, images)
    }

    /** A server over a database that already holds `images`. */
    constructor (sha: Hasher, images: seq<Image>)
      requires WellFormed(sha, images)
      ensures Valid()
      ensures this.sha == sha && this.images == images
    {
      this.sha := sha;
      this.images := images;
    }

    /**
     * Returns the id of the stored image with the same content, or stores a
     * new record for it. `pipeline` is what loading, resizing and embedding
     * the image produce; `newId` is the id the database assigns to a new
     * record, assumed positive and not in use.
     */
    method GetEmbedding(name: string, data: seq<byte>, pipeline: Pipeline, newId: int) returns (id: int)
      requires Valid()
      requires newId > 0 && newId !in Ids(images)
      modifies this
      ensures Valid()
      ensures Outcome(images, id) == InsertOrFetch(sha, old(images), name, data, pipeline, newId)
    {
      InsertPreservesWellFormed(sha, images, name, data, pipeline, newId);
      var found: Option<Image> := None;
      // first section: look the hash up
      var hash := GetHash(sha, data);
      var q := FirstWithHash(images, hash);
      if q.Some? {
        found := Some(images[q.value]);
      }
      if found.None? {
        if pipeline.Failed? {
          // the image did not load or the embedding failed: nothing was saved
          return FailedId;
        }
        var v := pipeline.vector;
        var floats := new Float32[|v|](i requires 0 <= i < |v| => v[i]);
        assert floats[..] == v;
        // second section: add the record, save, and read it back by its hash
        hash := GetHash(sha, data);
        var embedding := FloatToByte(floats);
        images := images + [Image(newId, name, data, hash, embedding[..])];
        assert images[|images| - 1].hash == hash;
        found := Some(images[FirstWithHash(images, hash).value]);
      }
      id := found.value.id;
    }

    /** The ids of all stored images, in enumeration order. */
    method GetAllImages() returns (ids: array<int>)
      ensures ids.Length == |images|
      ensures ids[..] == Ids(images)
    {
      ids := new int[|images|];
      var i := 0;
      while i < |images|
        invariant 0 <= i <= |images| == ids.Length
        invariant forall k :: 0 <= k < i ==> ids[k] == images[k].id
      {
        ids[i] := images[i].id;
        i := i + 1;
      }
    }

    /** The first stored image with that id; None (null) when there is none. */
    method GetImageByID(id: int) returns (found: Option<Image>)
      ensures found == FindById(images, id)
    {
      var q := FirstWithId(images, id);
      if q.Some? {
        found := Some(images[q.value]);
      } else {
        found := None;
      }
    }

    /**
     * Deletes every record. If the token is found cancelled once the deletion
     * is saved, the buffered records are added back in their order and
     * 0 is returned; otherwise 1.
     */
    method DeleteImages(cancelled: bool) returns (res: int)
      requires Valid()
      modifies this
      ensures Valid()
      ensures !cancelled ==> res == 1 && images == []
      ensures cancelled ==> res == 0 && images == old(images)
    {
      res := 1;
      var buffer := images;
      images := [];
      if cancelled {
        var i := 0;
        while i < |buffer|
          invariant 0 <= i <= |buffer|
          invariant images == buffer[..i]
        {
          images := images + [buffer[i]];
          i := i + 1;
        }
        res := 0;
      }
    }
  }

  /**
   * The controller's operations: each forwards to the server and, except for
   * deletion, reports failure when the token is cancelled once the server
   * has answered. `cancelled` is the token's state at that moment.
   */
  class ControllerFunctions {
    const server: ServerFunctions

    constructor (server: ServerFunctions)
      ensures this.server == server
    {
      this.server := server;
    }

    /** POST: (false, -1) when cancelled, even though the image may have been stored; otherwise (true, id). */
    method PostImage(name: string, data: seq<byte>, pipeline: Pipeline, newId: int, cancelled: bool)
      returns (ok: bool, id: int)
      requires server.Valid()
      requires newId > 0 && newId !in Ids(server.images)
      modifies server
      ensures server.Valid()
      ensures var o := InsertOrFetch(server.sha, old(server.images), name, data, pipeline, newId);
        && server.images == o.store
        && (ok, id) == (if cancelled then (false, FailedId) else (true, o.value))
    {
      id := server.GetEmbedding(name, data, pipeline, newId);
      if cancelled {
        return false, FailedId;
      }
      ok := true;
    }

    /** GET all: (false, null) when cancelled; otherwise (true, the ids). */
    method GetAllImages(cancelled: bool) returns (ok: bool, ids: array?<int>)
      ensures ok == !cancelled
      ensures cancelled ==> ids == null
      ensures !cancelled ==> ids != null && ids[..] == Ids(server.images)
    {
      var all := server.GetAllImages();
      if cancelled {
        return false, null;
      }
      ok, ids := true, all;
    }

    /** GET by id: (false, null) when cancelled; otherwise (true, the lookup's result). */
    method TryGetImageByID(id: int, cancelled: bool) returns (ok: bool, image: Option<Image>)
      ensures ok == !cancelled
      ensures image == if cancelled then None else FindById(server.images, id)
    {
      var found := server.GetImageByID(id);
      if cancelled {
        return false, None;
      }
      ok, image := true, found;
    }

    /** DELETE: the server's result, unchanged. */
    method DeleteAllImages(cancelled: bool) returns (res: int)
      requires server.Valid()
      modifies server
      ensures server.Valid()
      ensures !cancelled ==> res == 1 && server.images == []
      ensures cancelled ==> res == 0 && server.images == old(server.images)
    {
      res := server.DeleteImages(cancelled);
    }
  }
}
