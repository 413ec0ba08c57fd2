/** The request handlers of the image controller that change something:
    `createImage`, `deleteImage` and `updateImage`. Each is a function of
    the configured bucket, the state of the two stores (the bucket's object
    keys and the database's image records) and the way each foreign call
    turns out; it returns the response, the new state and the trace of
    calls it made, in order. */
module Handlers {
  import opened Wrappers
  import opened Strings
  import opened FileValidation
  import opened ImageService
  import opened ImageController

  /** The bucket and region the S3 service is configured with. */
  datatype Config = Config(bucket: string, region: string)

  /** What the handlers can change: the keys of the objects in the bucket,
      and the image records by id, each holding its `imageUrl`. */
  datatype Store = Store(objects: set<string>, records: map<string, string>)

  /** One call into a foreign service. */
  datatype Effect =
    | DbFind(id: string)
    | S3Send(command: S3Command)
    | DbSave(id: string, url: string)
    | DbDelete(id: string)
    | DbUpdate(id: string, url: string)

  /** How the foreign calls turn out: whether `ObjectId.isValid` accepts the
      id, whether the database lookup returns (rather than throws), whether
      the S3 delete and the S3 put are sent without error, and whether the
      database write (save, delete or update) returns. */
  datatype Outcomes = Outcomes(idValid: bool, findOk: bool, deleteSent: bool, putSent: bool, writeOk: bool)

  /** The JSON response: HTTP status, `message`, and the image URL the
      response carries, when it carries one. */
  datatype Response = Response(status: int, message: string, imageUrl: Option<string>)

  datatype Handled = Handled(response: Response, store: Store, trace: seq<Effect>)

  /** What a successful S3 send does to the bucket's keys. */
  function Apply(objects: set<string>, command: S3Command): set<string>
  {
    match command
    case PutObject(key, _) => objects + {key}
    case DeleteObject(key) => objects - {key}
    case _ => objects
  }

  /** Whether the trace holds a put sent to S3. */
  predicate SendsPut(trace: seq<Effect>) {
    exists i :: 0 <= i < |trace| && trace[i].S3Send? && trace[i].command.PutObject?
  }

  /** Whether the trace calls S3 at all. */
  predicate CallsS3(trace: seq<Effect>) {
    exists i :: 0 <= i < |trace| && trace[i].S3Send?
  }

  /** The prefix every URL the upload returns starts with. */
  function OptimizedPrefix(cfg: Config): string
  {
    BaseUrl(cfg.bucket, cfg.region) + "/" + OptimizedFolder + "/"
  }

  /** The configuration the URL results rely on: bucket and region hold no
      '/' and no '?'. */
  predicate PlainConfig(cfg: Config) {
    '/' !in cfg.bucket && '/' !in cfg.region && '?' !in cfg.bucket && '?' !in cfg.region
  }

  /** The key the delete handlers remove for a record's URL. */
  function StoredKey(url: string): string
  {
    ObjectKey(ExtractFilename(url))
  }

  const InternalError: Response := Response(500, "Internal server error", None)

  // ---------------------------------------------------------------------
  // createImage
  // ---------------------------------------------------------------------

  /** `createImage` for the uploaded file `file`; `newId` is the id the
      database gives the new record. The upload is sent first; when it
      yields no URL the reply is 500 "Upload failed" and nothing is saved.
      Otherwise the transformed URL is saved, and the reply is 201, or 500
      "Internal server error" when the save throws. */
  function CreateImage(cfg: Config, st: Store, file: UploadFile, o: Outcomes, newId: string): (r: Handled)
    ensures |r.trace| >= 1 && r.trace[0] == S3Send(UploadCommand(file))
    ensures r.store.objects == if o.putSent then st.objects + {UploadKey(file.originalname)} else st.objects
    ensures !o.putSent ==> r.response == Response(500, "Upload failed", None) && r.store == st
                           && |r.trace| == 1
    ensures r.response.status == 201 ==> o.putSent && o.writeOk && r.response.message == "Image Uploaded Successfully"
    ensures r.response.status == 201 <==> o.putSent && o.writeOk
    ensures o.putSent && !o.writeOk ==> r.response == InternalError
    ensures r.response.status != 201 ==> r.store.records == st.records
    ensures r.response.status == 201 ==>
              r.response.imageUrl.Some?
              && r.store.records == st.records[newId := r.response.imageUrl.value]
              && r.trace[|r.trace| - 1] == DbSave(newId, r.response.imageUrl.value)
    ensures r.response.status == 201 ==>
              UploadToS3(cfg.bucket, cfg.region, file, true).Some?
              && r.response.imageUrl == Some(TransformImageUrl(UploadToS3(cfg.bucket, cfg.region, file, true).value))
  {
    var put := UploadCommand(file);
    var objects := if o.putSent then Apply(st.objects, put) else st.objects;
    match UploadToS3(cfg.bucket, cfg.region, file, o.putSent)
    case None => Handled(Response(500, "Upload failed", None), st.(objects := objects), [S3Send(put)])
    case Some(url) =>
      var stored := TransformImageUrl(url);
      var trace := [S3Send(put), DbSave(newId, stored)];
      if !o.writeOk then Handled(InternalError, st.(objects := objects), trace)
      else Handled(Response(201, "Image Uploaded Successfully", Some(stored)),
                   Store(objects, st.records[newId := stored]), trace)
  }

  /** With the fresh id the database assigns, a successful create adds
      one record and leaves every existing record as it was. */
  lemma CreateAddsOneRecord(cfg: Config, st: Store, file: UploadFile, o: Outcomes, newId: string)
    requires o.putSent && o.writeOk && newId !in st.records
    ensures CreateImage(cfg, st, file, o, newId).response.status == 201
    ensures var records := CreateImage(cfg, st, file, o, newId).store.records;
            && records.Keys == st.records.Keys + {newId}
            && |records| == |st.records| + 1
            && forall id | id in st.records :: records[id] == st.records[id]
  {
    var records := CreateImage(cfg, st, file, o, newId).store.records;
    assert records == st.records[newId := records[newId]];
  }

  // ---------------------------------------------------------------------
  // deleteImage
  // ---------------------------------------------------------------------

  /** `deleteImage` for the id `id`. */
  function DeleteImage(st: Store, id: string, o: Outcomes): (r: Handled)
    ensures !o.idValid ==> r == Handled(Response(400, "Invalid ID", None), st, [])
    ensures r.response.status == 400 <==> !o.idValid
    ensures o.idValid ==> |r.trace| >= 1 && r.trace[0] == DbFind(id)
    ensures o.idValid && !o.findOk ==> r == Handled(InternalError, st, [DbFind(id)])
    ensures r.response.status == 404 <==> o.idValid && o.findOk && id !in st.records
    ensures r.response.status == 404 ==> r.response.message == "Image not found" && r.store == st
                                         && !CallsS3(r.trace)
    ensures r.response == Response(500, "Deletion failed", None) <==>
              o.idValid && o.findOk && id in st.records && !o.deleteSent
    ensures r.response.message == "Deletion failed" ==> r.store == st
    ensures r.response.status == 200 <==> o.idValid && o.findOk && id in st.records && o.deleteSent && o.writeOk
    ensures r.response.status != 200 ==> r.store.records == st.records
    ensures r.response.status == 200 ==>
              r.response.message == "Image deleted successfully"
              && r.store.records == st.records - {id}
              && r.store.objects == st.objects - {StoredKey(st.records[id])}
              && r.trace == [DbFind(id), S3Send(DeleteObject(StoredKey(st.records[id]))), DbDelete(id)]
    ensures o.idValid && o.findOk && id in st.records && o.deleteSent && !o.writeOk ==>
              r.response == InternalError
              && r.store == Store(st.objects - {StoredKey(st.records[id])}, st.records)
  {
    if !o.idValid then Handled(Response(400, "Invalid ID", None), st, [])
    else if !o.findOk then Handled(InternalError, st, [DbFind(id)])
    else if id !in st.records then Handled(Response(404, "Image not found", None), st, [DbFind(id)])
    else
      var deletion := DeleteImageFromS3(ExtractFilename(st.records[id]), o.deleteSent);
      var trace := [DbFind(id), S3Send(deletion.0)];
      if !deletion.1 then Handled(Response(500, "Deletion failed", None), st, trace)
      else
        var objects := Apply(st.objects, deletion.0);
        if !o.writeOk then Handled(InternalError, st.(objects := objects), trace + [DbDelete(id)])
        else Handled(Response(200, "Image deleted successfully", None),
                     Store(objects, st.records - {id}), trace + [DbDelete(id)])
  }

  // ---------------------------------------------------------------------
  // updateImage
  // ---------------------------------------------------------------------

  /** `updateImage` for the id `id` and the new file `file`. The old object
      is deleted before the new one is put; each failure stops the handler
      where it happens. */
  function UpdateImage(cfg: Config, st: Store, id: string, file: UploadFile, o: Outcomes): (r: Handled)
    ensures !o.idValid ==> r == Handled(Response(400, "Invalid ID", None), st, [])
    ensures r.response.status == 400 <==> !o.idValid
    ensures o.idValid && !o.findOk ==> r == Handled(InternalError, st, [DbFind(id)])
    ensures r.response.status == 404 <==> o.idValid && o.findOk && id !in st.records
    ensures r.response.status == 404 ==> r.response.message == "Image not found" && r.store == st
                                         && !CallsS3(r.trace)
    ensures r.response == Response(500, "Failed to delete old image", None) <==>
              o.idValid && o.findOk && id in st.records && !o.deleteSent
    ensures r.response.message == "Failed to delete old image" ==> r.store == st && !SendsPut(r.trace)
    ensures r.response.status == 200 <==> o.idValid && o.findOk && id in st.records && o.deleteSent
                                          && o.putSent && o.writeOk
    ensures r.response.status != 200 ==> r.store.records == st.records
    ensures o.idValid && o.findOk && id in st.records && o.deleteSent ==>
              r == ReplaceImage(cfg, st, id, file, o)
  {
    if !o.idValid then Handled(Response(400, "Invalid ID", None), st, [])
    else if !o.findOk then Handled(InternalError, st, [DbFind(id)])
    else if id !in st.records then Handled(Response(404, "Image not found", None), st, [DbFind(id)])
    else if !o.deleteSent then
      var deletion := DeleteImageFromS3(ExtractFilename(st.records[id]), o.deleteSent);
      Handled(Response(500, "Failed to delete old image", None), st, [DbFind(id), S3Send(deletion.0)])
    else ReplaceImage(cfg, st, id, file, o)
  }

  /** The rest of `updateImage` once the record was found and its object
      deleted: the new file is put, then the record is pointed at its
      transformed URL. */
  function ReplaceImage(cfg: Config, st: Store, id: string, file: UploadFile, o: Outcomes): (r: Handled)
    requires id in st.records && o.deleteSent
    ensures |r.trace| >= 3 && r.trace[0] == DbFind(id)
            && r.trace[1] == S3Send(DeleteObject(StoredKey(st.records[id])))
            && r.trace[2] == S3Send(UploadCommand(file))
    ensures forall j | 3 <= j < |r.trace| :: !r.trace[j].S3Send?
    ensures r.store.objects == (st.objects - {StoredKey(st.records[id])})
                               + (if o.putSent then {UploadKey(file.originalname)} else {})
    ensures !o.putSent ==> r.response == Response(500, "Failed to upload new image", None)
                           && r.store.records == st.records
    ensures r.response.status == 200 <==> o.putSent && o.writeOk
    ensures o.putSent && !o.writeOk ==> r.response == InternalError
    ensures r.response.status != 200 ==> r.store.records == st.records
    ensures r.response.status == 200 ==>
              r.response.message == "Image updated successfully"
              && r.response.imageUrl.Some?
              && r.store.records == st.records[id := r.response.imageUrl.value]
    ensures r.response.status == 200 ==>
              UploadToS3(cfg.bucket, cfg.region, file, true).Some?
              && r.response.imageUrl == Some(TransformImageUrl(UploadToS3(cfg.bucket, cfg.region, file, true).value))
  {
    var deletion := DeleteImageFromS3(ExtractFilename(st.records[id]), o.deleteSent);
    var afterDelete := Apply(st.objects, deletion.0);
    var put := UploadCommand(file);
    var objects := if o.putSent then Apply(afterDelete, put) else afterDelete;
    ApplyDeleteThenPut(st.objects, deletion.0, put, o.putSent);
    var trace := [DbFind(id), S3Send(deletion.0), S3Send(put)];
    match UploadToS3(cfg.bucket, cfg.region, file, o.putSent)
    case None =>
      Handled(Response(500, "Failed to upload new image", None), st.(objects := objects), trace)
    case Some(url) =>
      var stored := TransformImageUrl(url);
      if !o.writeOk then Handled(InternalError, st.(objects := objects), trace + [DbUpdate(id, stored)])
      else Handled(Response(200, "Image updated successfully", Some(stored)),
                   Store(objects, st.records[id := stored]), trace + [DbUpdate(id, stored)])
  }

  /** A delete followed, when it went out, by a put. */
  lemma ApplyDeleteThenPut(objects: set<string>, deletion: S3Command, put: S3Command, putSent: bool)
    requires deletion.DeleteObject? && put.PutObject?
    ensures (if putSent then Apply(Apply(objects, deletion), put) else Apply(objects, deletion))
            == (objects - {deletion.key}) + (if putSent then {put.key} else {})
  {
  }

  // ---------------------------------------------------------------------
  // Properties across the handlers
  // ---------------------------------------------------------------------

  /** `updateImage` deletes before it uploads: whenever its trace holds a
      put, a delete comes earlier in it, and that delete was sent without
      error. */
  lemma UpdateDeletesFirst(cfg: Config, st: Store, id: string, file: UploadFile, o: Outcomes)
    ensures var t := UpdateImage(cfg, st, id, file, o).trace;
            forall j | 0 <= j < |t| && t[j].S3Send? && t[j].command.PutObject? ::
              o.deleteSent && exists i :: 0 <= i < j && t[i].S3Send? && t[i].command.DeleteObject?
  {
    var t := UpdateImage(cfg, st, id, file, o).trace;
    if o.idValid && o.findOk && id in st.records && o.deleteSent {
      DeleteBeforePut(ReplaceImage(cfg, st, id, file, o).trace);
    } else {
      assert |t| <= 2;
      assert forall j | 0 <= j < |t| :: !t[j].S3Send? || t[j].command.DeleteObject?;
    }
  }

  /** In a trace that opens with a database call and a delete and sends
      nothing to S3 after its third entry, every put comes after a delete. */
  lemma DeleteBeforePut(t: seq<Effect>)
    requires |t| >= 3 && !t[0].S3Send? && t[1].S3Send? && t[1].command.DeleteObject?
    requires forall j | 3 <= j < |t| :: !t[j].S3Send?
    ensures forall j | 0 <= j < |t| && t[j].S3Send? && t[j].command.PutObject? ::
              exists i :: 0 <= i < j && t[i].S3Send? && t[i].command.DeleteObject?
  {
    forall j | 0 <= j < |t| && t[j].S3Send? && t[j].command.PutObject?
      ensures exists i :: 0 <= i < j && t[i].S3Send? && t[i].command.DeleteObject?
    {
      assert j != 0 && j != 1;
    }
  }

  /** A failed upload in `updateImage` leaves a dangling record: the
      record still holds the old URL, whose object was already deleted. */
  lemma FailedUpdateLosesOldObject(cfg: Config, st: Store, id: string, file: UploadFile, o: Outcomes)
    requires UpdateImage(cfg, st, id, file, o).response.message == "Failed to upload new image"
    ensures var r := UpdateImage(cfg, st, id, file, o);
            id in st.records && !o.putSent
            && r.store.records == st.records && StoredKey(st.records[id]) !in r.store.objects
  {
  }

  /** Every stored URL lies in the optimised folder of the configured
      bucket. */
  predicate StoredUrlsOptimized(cfg: Config, st: Store) {
    forall id | id in st.records :: OptimizedPrefix(cfg) <= st.records[id]
  }

  /** The URL a handler stores for an upload keeps the folder prefix. */
  lemma StoredUrlOptimized(cfg: Config, file: UploadFile, url: string)
    requires PlainConfig(cfg) && UploadToS3(cfg.bucket, cfg.region, file, true) == Some(url)
    ensures OptimizedPrefix(cfg) <= TransformImageUrl(url)
    ensures '?' !in TransformImageUrl(url)
  {
    UploadedUnderPrefix(cfg, file, url);
    PrefixNoQuery(cfg);
    TransformKeepsDirectory(url, OptimizedPrefix(cfg));
    TransformDropsQuery(url);
  }

  /** A sent upload's URL is the optimised-folder prefix and the file name. */
  lemma UploadedUnderPrefix(cfg: Config, file: UploadFile, url: string)
    requires PlainConfig(cfg) && UploadToS3(cfg.bucket, cfg.region, file, true) == Some(url)
    ensures url == OptimizedPrefix(cfg) + file.originalname
  {
  }

  /** The optimised-folder prefix ends in '/' and holds no '?'. */
  lemma PrefixNoQuery(cfg: Config)
    requires PlainConfig(cfg)
    ensures var p := OptimizedPrefix(cfg); |p| >= 1 && p[|p| - 1] == '/' && '?' !in p
  {
    assert '?' !in "https://" && '?' !in ".s3." && '?' !in ".amazonaws.com" && '?' !in OptimizedFolder;
  }

  /** `createImage` keeps every stored URL in the optimised folder. */
  lemma CreateKeepsStoredUrls(cfg: Config, st: Store, file: UploadFile, o: Outcomes, newId: string)
    requires PlainConfig(cfg) && StoredUrlsOptimized(cfg, st)
    ensures StoredUrlsOptimized(cfg, CreateImage(cfg, st, file, o, newId).store)
  {
    if o.putSent {
      var url := UploadToS3(cfg.bucket, cfg.region, file, true).value;
      StoredUrlOptimized(cfg, file, url);
    }
  }

  /** `deleteImage` keeps every stored URL in the optimised folder. */
  lemma DeleteKeepsStoredUrls(cfg: Config, st: Store, id: string, o: Outcomes)
    requires StoredUrlsOptimized(cfg, st)
    ensures StoredUrlsOptimized(cfg, DeleteImage(st, id, o).store)
  {
  }

  /** `updateImage` keeps every stored URL in the optimised folder. */
  lemma UpdateKeepsStoredUrls(cfg: Config, st: Store, id: string, file: UploadFile, o: Outcomes)
    requires PlainConfig(cfg) && StoredUrlsOptimized(cfg, st)
    ensures StoredUrlsOptimized(cfg, UpdateImage(cfg, st, id, file, o).store)
  {
    if o.putSent {
      var url := UploadToS3(cfg.bucket, cfg.region, file, true).value;
      StoredUrlOptimized(cfg, file, url);
    }
  }
}
