/** The two routes that take an upload, as the router chains them: the
    validation middleware, then `addQuery`, then `createImage` (for
    `POST /upload`) or `updateImage` (for `PUT /image/:id`); and what an
    accepted upload ends up as: the URL stored for it, and the object key
    deleting it removes. */
module Pipeline {
  import opened Wrappers
  import opened Strings
  import opened RenameFile
  import opened FileValidation
  import opened QueryEncoder
  import opened ImageService
  import opened ImageController
  import opened Handlers

  /** A request the validation middleware answers: its reply, nothing
      stored, no foreign call. */
  function Rejected(st: Store, reply: Reply): Handled
  {
    Handled(Response(reply.status, reply.message, None), st, [])
  }

  /** `POST /upload`: `None` stands for the error `addQuery` throws for a
      field name without a row, which goes to the framework's error
      handler and is not modelled further. */
  function UploadRoute(cfg: Config, st: Store, file: Option<UploadFile>, now: LocalTime, o: Outcomes,
                       newId: string): (r: Option<Handled>)
    ensures ValidateFile(file, now).Respond? ==> r == Some(Rejected(st, ValidateFile(file, now).reply))
    ensures r.None? <==> ValidateFile(file, now).Next? && file.value.fieldname !in FileParamsConfig
    ensures r.Some? && r.value.response.status == 201 ==> ValidateFile(file, now).Next?
  {
    match ValidateFile(file, now)
    case Respond(reply) => Some(Rejected(st, reply))
    case Next(g) =>
      match AddQuery(g)
      case None => None
      case Some(h) => Some(CreateImage(cfg, st, h, o, newId))
  }

  /** `PUT /image/:id`: the file is validated before the id is looked at,
      so a bad file gets its 400 even for an unknown id. */
  function UpdateRoute(cfg: Config, st: Store, id: string, file: Option<UploadFile>, now: LocalTime,
                       o: Outcomes): (r: Option<Handled>)
    ensures ValidateFile(file, now).Respond? ==> r == Some(Rejected(st, ValidateFile(file, now).reply))
    ensures r.None? <==> ValidateFile(file, now).Next? && file.value.fieldname !in FileParamsConfig
    ensures r.Some? && r.value.response.status == 200 ==> ValidateFile(file, now).Next? && o.idValid
  {
    match ValidateFile(file, now)
    case Respond(reply) => Some(Rejected(st, reply))
    case Next(g) =>
      match AddQuery(g)
      case None => None
      case Some(h) => Some(UpdateImage(cfg, st, id, h, o))
  }

  /** The table's field names hold no '/', '?' or '.'. */
  lemma ConfigKeysPlain(k: string)
    requires k in FileParamsConfig
    ensures '/' !in k && '?' !in k && '.' !in k
  {
    ConfigKeys();
  }

  /** The whitelisted extensions are non-empty and hold no '.', '/' or '?'. */
  lemma AllowedExtensionPlain(e: string)
    requires e in AllowedExtensions
    ensures |e| >= 1 && '.' !in e && '/' !in e && '?' !in e
  {
  }

  /** The name of an accepted file, with a field name from the table, holds
      no '/' and no '?'. */
  lemma StampPlain(now: LocalTime, k: string)
    requires k in FileParamsConfig
    ensures '/' !in FormattedLocalTime(now, k) && '?' !in FormattedLocalTime(now, k)
  {
    ConfigKeysPlain(k);
    NameAvoids(now, k, '/');
    NameAvoids(now, k, '?');
  }

  /** The path ends in an extension that starts at the dot after `stamp`. */
  lemma PathExtension(prefix: string, stamp: string, e: string)
    requires |e| >= 1 && '.' !in e && '/' !in e
    ensures ExtensionAt(prefix + stamp + "." + e, |prefix| + |stamp|)
    ensures (prefix + stamp + "." + e)[..|prefix| + |stamp|] == prefix + stamp
  {
    var path := prefix + stamp + "." + e;
    var j := |prefix| + |stamp|;
    assert forall m | j < m < |path| :: path[m] == e[m - j - 1];
    assert path == (prefix + stamp) + ("." + e);
  }

  /** The URL an upload of `stamp.e` with the query of row `p` comes back
      as is transformed into the same path with `p.ext` as its extension:
      the query is gone and the extension is the one the table asked for. */
  lemma TransformUploadUrl(prefix: string, stamp: string, e: string, p: FileParams)
    requires '?' !in prefix && '?' !in stamp && '?' !in e
    requires |e| >= 1 && '.' !in e && '/' !in e
    requires PlainValue(p.ext) && PlainValue(p.size) && PlainValue(p.filesize)
    ensures TransformImageUrl(prefix + stamp + "." + e + QueryFor(p)) == prefix + stamp + "." + p.ext
  {
    var path := prefix + stamp + "." + e;
    var rest := "size=" + p.size + "&filesize=" + p.filesize;
    var q := "ext=" + p.ext + "&" + rest;
    assert QueryFor(p) == "?" + q;
    assert prefix + stamp + "." + e + QueryFor(p) == path + "?" + q;
    assert '?' !in q by {
      assert forall x | x in q :: x in "ext=&size=filesize" || x in p.ext || x in p.size || x in p.filesize;
    }
    TransformWithQuery(path, q);
    ExtAtStart(p.ext, rest);
    PathExtension(prefix, stamp, e);
  }

  /** What the upload returns for such a file, transformed: the URL of
      `stamp.<p.ext>` in the optimised folder. */
  lemma UploadTransformed(cfg: Config, h: UploadFile, stamp: string, e: string, p: FileParams)
    requires PlainConfig(cfg)
    requires h.originalname == stamp + "." + e + QueryFor(p)
    requires '/' !in stamp && '?' !in stamp
    requires |e| >= 1 && '.' !in e && '/' !in e && '?' !in e
    requires PlainValue(p.ext) && PlainValue(p.size) && PlainValue(p.filesize)
    ensures UploadToS3(cfg.bucket, cfg.region, h, true).Some?
    ensures TransformImageUrl(UploadToS3(cfg.bucket, cfg.region, h, true).value)
            == OptimizedPrefix(cfg) + (stamp + "." + p.ext)
  {
    var prefix := OptimizedPrefix(cfg);
    PrefixNoQuery(cfg);
    var url := UploadToS3(cfg.bucket, cfg.region, h, true).value;
    assert url == prefix + h.originalname;
    Reassociate(prefix, stamp, ".", e, QueryFor(p));
    TransformUploadUrl(prefix, stamp, e, p);
    Reassociate(prefix, stamp, ".", p.ext, "");
  }

  /** Regrouping of concatenations; used by `UploadTransformed` to move
      between the URL as the upload builds it and as the transform reads it. */
  lemma Reassociate(a: string, b: string, c: string, d: string, x: string)
    ensures a + (b + c + d + x) == a + b + c + d + x
    ensures a + (b + c + d) == a + b + c + d
  {
  }

  /** `createImage`, with S3 and the database answering, for a file named
      `stamp.e` plus the query of row `p`: it stores the URL of
      `stamp.<p.ext>` in the optimised folder. */
  lemma CreateFromName(cfg: Config, st: Store, h: UploadFile, o: Outcomes, newId: string,
                       stamp: string, e: string, p: FileParams)
    requires PlainConfig(cfg) && o.putSent && o.writeOk
    requires h.originalname == stamp + "." + e + QueryFor(p)
    requires '/' !in stamp && '?' !in stamp
    requires |e| >= 1 && '.' !in e && '/' !in e && '?' !in e
    requires PlainValue(p.ext) && PlainValue(p.size) && PlainValue(p.filesize)
    ensures var r := CreateImage(cfg, st, h, o, newId);
            var url := OptimizedPrefix(cfg) + (stamp + "." + p.ext);
            && r.response.status == 201
            && r.response.imageUrl == Some(url)
            && r.store.records == st.records[newId := url]
            && r.store.objects == st.objects + {UploadKey(h.originalname)}
  {
    UploadTransformed(cfg, h, stamp, e, p);
  }

  /** The tail of `updateImage`, with S3 and the database answering, for a
      file named as in `CreateFromName`: the record now holds the same URL
      `createImage` would have stored. */
  lemma ReplaceFromName(cfg: Config, st: Store, id: string, h: UploadFile, o: Outcomes,
                        stamp: string, e: string, p: FileParams)
    requires PlainConfig(cfg) && o.deleteSent && o.putSent && o.writeOk && id in st.records
    requires h.originalname == stamp + "." + e + QueryFor(p)
    requires '/' !in stamp && '?' !in stamp
    requires |e| >= 1 && '.' !in e && '/' !in e && '?' !in e
    requires PlainValue(p.ext) && PlainValue(p.size) && PlainValue(p.filesize)
    ensures var r := ReplaceImage(cfg, st, id, h, o);
            var url := OptimizedPrefix(cfg) + (stamp + "." + p.ext);
            && r.response.status == 200
            && r.response.imageUrl == Some(url)
            && r.store.records == st.records[id := url]
  {
    UploadTransformed(cfg, h, stamp, e, p);
  }

  /** The file the two middlewares hand on for an accepted file of a
      field in the table: the timestamped name, the lower-cased extension,
      and the row's query. */
  lemma MiddlewareName(f: UploadFile, now: LocalTime)
    requires ValidateFile(Some(f), now).Next? && f.fieldname in FileParamsConfig
    ensures var h := AddQuery(ValidateFile(Some(f), now).file);
            var stamp := FormattedLocalTime(now, f.fieldname);
            var e := Extension(f.originalname);
            && h.Some? && h.value.fieldname == f.fieldname
            && h.value.originalname == stamp + "." + e + QueryFor(FileParamsConfig[f.fieldname])
            && '/' !in stamp && '?' !in stamp
            && |e| >= 1 && '.' !in e && '/' !in e && '?' !in e
  {
    ExtensionAfterLastDot(f.originalname);
    AllowedExtensionPlain(Extension(f.originalname));
    StampPlain(now, f.fieldname);
  }

  /** An accepted upload through `POST /upload`, with S3 and the database
      answering, stores `<prefix>/Optimize-images/<stamp>.<ext>`: the
      timestamped name with the extension the field's row asks for. The
      raw object's key carries the query, and the stored URL's file name
      is `<stamp>.<ext>`, which is also the object deleting the record
      removes. */
  lemma UploadStoresOptimizedName(cfg: Config, st: Store, f: UploadFile, now: LocalTime, o: Outcomes,
                                  newId: string)
    requires PlainConfig(cfg) && o.putSent && o.writeOk
    requires ValidateFile(Some(f), now).Next? && f.fieldname in FileParamsConfig
    ensures var r := UploadRoute(cfg, st, Some(f), now, o, newId);
            var stamp := FormattedLocalTime(now, f.fieldname);
            var p := FileParamsConfig[f.fieldname];
            var name := stamp + "." + p.ext;
            && r.Some? && r.value.response.status == 201
            && r.value.response.imageUrl == Some(OptimizedPrefix(cfg) + name)
            && r.value.store.records == st.records[newId := OptimizedPrefix(cfg) + name]
            && r.value.store.objects
               == st.objects + {UploadKey(stamp + "." + Extension(f.originalname) + QueryFor(p))}
            && ExtractFilename(OptimizedPrefix(cfg) + name) == Some(name)
            && StoredKey(OptimizedPrefix(cfg) + name) == OptimizedFolder + "/" + name
  {
    var h := AddQuery(ValidateFile(Some(f), now).file).value;
    MiddlewareName(f, now);
    ConfigValuesPlain();
    CreatedRoute(cfg, st, h, o, newId, FormattedLocalTime(now, f.fieldname), Extension(f.originalname),
                 FileParamsConfig[f.fieldname], UploadRoute(cfg, st, Some(f), now, o, newId));
  }

  /** `CreateFromName` seen through the route's result `r`, with the
      stored URL's file name and object key spelled out. */
  lemma CreatedRoute(cfg: Config, st: Store, h: UploadFile, o: Outcomes, newId: string,
                     stamp: string, e: string, p: FileParams, r: Option<Handled>)
    requires PlainConfig(cfg) && o.putSent && o.writeOk
    requires h.originalname == stamp + "." + e + QueryFor(p)
    requires '/' !in stamp && '?' !in stamp
    requires |e| >= 1 && '.' !in e && '/' !in e && '?' !in e
    requires PlainValue(p.ext) && PlainValue(p.size) && PlainValue(p.filesize)
    requires r == Some(CreateImage(cfg, st, h, o, newId))
    ensures var name := stamp + "." + p.ext;
            && r.Some? && r.value.response.status == 201
            && r.value.response.imageUrl == Some(OptimizedPrefix(cfg) + name)
            && r.value.store.records == st.records[newId := OptimizedPrefix(cfg) + name]
            && r.value.store.objects == st.objects + {UploadKey(stamp + "." + e + QueryFor(p))}
            && ExtractFilename(OptimizedPrefix(cfg) + name) == Some(name)
            && StoredKey(OptimizedPrefix(cfg) + name) == OptimizedFolder + "/" + name
  {
    CreateFromName(cfg, st, h, o, newId, stamp, e, p);
    OptimizedNameKey(cfg, stamp, p.ext);
  }

  /** A slash-free `stamp.ext` in the optimised folder is what
      `extractFilename` returns and what the delete handlers remove. */
  lemma OptimizedNameKey(cfg: Config, stamp: string, ext: string)
    requires PlainConfig(cfg) && '/' !in stamp && '/' !in ext
    ensures var name := stamp + "." + ext;
            && ExtractFilename(OptimizedPrefix(cfg) + name) == Some(name)
            && StoredKey(OptimizedPrefix(cfg) + name) == OptimizedFolder + "/" + name
  {
    var name := stamp + "." + ext;
    assert forall x | x in name :: x in stamp || x == '.' || x in ext;
    PrefixNoQuery(cfg);
    ExtractAfterSlash(OptimizedPrefix(cfg), name);
  }

  /** Deleting the record an upload created, with S3 and the database
      answering, removes the object `Optimize-images/<stamp>.<ext>` and
      the record. */
  lemma DeleteRemovesUploadedName(cfg: Config, st: Store, f: UploadFile, now: LocalTime, o: Outcomes,
                                  newId: string)
    requires PlainConfig(cfg) && o.idValid && o.findOk && o.deleteSent && o.putSent && o.writeOk
    requires ValidateFile(Some(f), now).Next? && f.fieldname in FileParamsConfig
    ensures var created := UploadRoute(cfg, st, Some(f), now, o, newId).value.store;
            var name := FormattedLocalTime(now, f.fieldname) + "." + FileParamsConfig[f.fieldname].ext;
            var r := DeleteImage(created, newId, o);
            && r.response.status == 200
            && r.store.records == st.records - {newId}
            && r.store.objects == created.objects - {OptimizedFolder + "/" + name}
  {
    UploadStoresOptimizedName(cfg, st, f, now, o, newId);
    var created := UploadRoute(cfg, st, Some(f), now, o, newId).value.store;
    var name := FormattedLocalTime(now, f.fieldname) + "." + FileParamsConfig[f.fieldname].ext;
    DeleteAfterCreate(st.records, created, newId, OptimizedPrefix(cfg) + name, o);
  }

  /** Deleting, with S3 and the database answering, the record a save put
      at `newId` removes the object of its URL and restores the other
      records. */
  lemma DeleteAfterCreate(records: map<string, string>, created: Store, newId: string, url: string,
                          o: Outcomes)
    requires o.idValid && o.findOk && o.deleteSent && o.writeOk
    requires created.records == records[newId := url]
    ensures var r := DeleteImage(created, newId, o);
            && r.response.status == 200
            && r.store.records == records - {newId}
            && r.store.objects == created.objects - {StoredKey(url)}
  {
    assert created.records - {newId} == records - {newId};
  }

  /** A logo upload at local time `now` is stored as
      `<prefix>/Optimize-images/<stamp>.png`, whatever image type it was. */
  lemma LogoStoredAsPng(cfg: Config, st: Store, f: UploadFile, now: LocalTime, o: Outcomes, newId: string)
    requires PlainConfig(cfg) && o.putSent && o.writeOk
    requires f.fieldname == "logo" && ValidateFile(Some(f), now).Next?
    ensures UploadRoute(cfg, st, Some(f), now, o, newId).value.response.imageUrl
            == Some(OptimizedPrefix(cfg) + FormattedLocalTime(now, "logo") + ".png")
  {
    LogoRow();
    UploadStoresOptimizedName(cfg, st, f, now, o, newId);
    DotPng(UploadRoute(cfg, st, Some(f), now, o, newId), OptimizedPrefix(cfg), FormattedLocalTime(now, "logo"));
  }

  /** The "logo" row asks for png; used by `LogoStoredAsPng`. */
  lemma LogoRow()
    ensures "logo" in FileParamsConfig && FileParamsConfig["logo"].ext == "png"
  {
  }

  /** A stored URL `prefix + stamp.<logo ext>` is `prefix + stamp + ".png"`;
      used by `LogoStoredAsPng`. */
  lemma DotPng(r: Option<Handled>, prefix: string, stamp: string)
    requires "logo" in FileParamsConfig && FileParamsConfig["logo"].ext == "png"
    requires r.Some? && r.value.response.imageUrl == Some(prefix + (stamp + "." + FileParamsConfig["logo"].ext))
    ensures r.value.response.imageUrl == Some(prefix + stamp + ".png")
  {
    assert prefix + (stamp + "." + "png") == prefix + stamp + ".png";
  }

  /** An accepted upload through `PUT /image/:id` for a stored record, with
      every foreign call answering, points the record at the same kind of
      URL `POST /upload` stores, after removing the old record's object. */
  lemma UpdateStoresOptimizedName(cfg: Config, st: Store, id: string, f: UploadFile, now: LocalTime,
                                  o: Outcomes)
    requires PlainConfig(cfg) && o.idValid && o.findOk && o.deleteSent && o.putSent && o.writeOk
    requires id in st.records
    requires ValidateFile(Some(f), now).Next? && f.fieldname in FileParamsConfig
    ensures var r := UpdateRoute(cfg, st, id, Some(f), now, o);
            var name := FormattedLocalTime(now, f.fieldname) + "." + FileParamsConfig[f.fieldname].ext;
            && r.Some? && r.value.response.status == 200
            && r.value.store.records == st.records[id := OptimizedPrefix(cfg) + name]
            && StoredKey(st.records[id]) !in r.value.store.objects - {UploadKey(
                 FormattedLocalTime(now, f.fieldname) + "." + Extension(f.originalname)
                 + QueryFor(FileParamsConfig[f.fieldname]))}
  {
    var h := AddQuery(ValidateFile(Some(f), now).file).value;
    MiddlewareName(f, now);
    ConfigValuesPlain();
    ReplacedRoute(cfg, st, id, h, o, FormattedLocalTime(now, f.fieldname), Extension(f.originalname),
                  FileParamsConfig[f.fieldname], UpdateRoute(cfg, st, id, Some(f), now, o));
  }

  /** `ReplaceFromName` seen through the route's result `r`: the old
      record's object is gone unless the new upload reused its key. */
  lemma ReplacedRoute(cfg: Config, st: Store, id: string, h: UploadFile, o: Outcomes,
                      stamp: string, e: string, p: FileParams, r: Option<Handled>)
    requires PlainConfig(cfg) && o.idValid && o.findOk && o.deleteSent && o.putSent && o.writeOk
    requires id in st.records
    requires h.originalname == stamp + "." + e + QueryFor(p)
    requires '/' !in stamp && '?' !in stamp
    requires |e| >= 1 && '.' !in e && '/' !in e && '?' !in e
    requires PlainValue(p.ext) && PlainValue(p.size) && PlainValue(p.filesize)
    requires r == Some(UpdateImage(cfg, st, id, h, o))
    ensures && r.Some? && r.value.response.status == 200
            && r.value.store.records == st.records[id := OptimizedPrefix(cfg) + (stamp + "." + p.ext)]
            && StoredKey(st.records[id]) !in r.value.store.objects - {UploadKey(stamp + "." + e + QueryFor(p))}
  {
    ReplaceFromName(cfg, st, id, h, o, stamp, e, p);
  }
}
