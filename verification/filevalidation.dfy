/** The upload validation middleware: a file must be present, at most
    10 MiB, and carry one of five image extensions (compared in lower
    case); an accepted file is renamed to the timestamped name plus its
    lower-cased extension before `next()` is called. */
module FileValidation {
  import opened Wrappers
  import opened Strings
  import opened RenameFile

  /** The parts of multer's file object the core reads. The byte buffer is
      not modelled. */
  datatype UploadFile = UploadFile(fieldname: string, originalname: string, mimetype: string, size: nat)

  /** A JSON reply: HTTP status and `message`. */
  datatype Reply = Reply(status: int, message: string)

  /** What an Express middleware does with a request: answer it (and stop the
      chain), or call `next()` once with the file as it now stands. */
  datatype Step = Respond(reply: Reply) | Next(file: UploadFile)

  /** 10 * 1024 * 1024 bytes. */
  const MaxSize: nat := 10 * 1024 * 1024

  const AllowedExtensions: seq<string> := ["jpeg", "jpg", "png", "svg", "webp"]

  /** `name.split(".").pop().toLowerCase()`. */
  function Extension(name: string): string
  {
    var parts := Split(name, '.');
    ToLower(parts[|parts| - 1])
  }

  /** The extension is the lower-cased text after the last '.', or the whole
      name lower-cased when there is no '.'; it never holds a '.'. */
  lemma ExtensionAfterLastDot(name: string)
    ensures Extension(name) == ToLower(AfterLast(name, '.'))
    ensures '.' !in Extension(name)
  {
    SplitLast(name, '.');
    ToLowerKeepsOtherChars(AfterLast(name, '.'), '.');
  }

  /** `fileValidationMiddleware` for a request whose file is `file` (None when
      multer left `req.file` unset), handled at local time `now`. */
  function ValidateFile(file: Option<UploadFile>, now: LocalTime): (r: Step)
    ensures file.None? ==> r == Respond(Reply(400, "No file provided"))
    ensures file.Some? && file.value.size > MaxSize ==> r == Respond(Reply(400, "File size exceeds 10MB"))
    ensures file.Some? && file.value.size <= MaxSize
            && ToLower(AfterLast(file.value.originalname, '.')) !in AllowedExtensions
            ==> r == Respond(Reply(400, "Only Images are allowed"))
    ensures r.Next? <==> file.Some? && file.value.size <= MaxSize
                         && ToLower(AfterLast(file.value.originalname, '.')) in AllowedExtensions
    ensures r.Next? ==> r.file.fieldname == file.value.fieldname
                        && r.file.mimetype == file.value.mimetype
                        && r.file.size == file.value.size
  {
    match file
    case None => Respond(Reply(400, "No file provided"))
    case Some(f) =>
      if f.size > MaxSize then Respond(Reply(400, "File size exceeds 10MB"))
      else
        var extname := Extension(f.originalname);
        ExtensionAfterLastDot(f.originalname);
        if extname !in AllowedExtensions then Respond(Reply(400, "Only Images are allowed"))
        else
          var newFileName := FormattedLocalTime(now, f.fieldname) + "." + extname;
          Next(f.(originalname := newFileName))
  }

  /** `stamp + "." + ext` for an `ext` without '.' has `ext` after its last dot. */
  lemma DottedName(stamp: string, ext: string)
    requires '.' !in ext
    ensures var name := stamp + "." + ext;
            && |name| > |ext|
            && AfterLast(name, '.') == ext
            && name[..|name| - |ext| - 1] == stamp
            && name[|name| - |ext| - 1..] == "." + ext
  {
    var name := stamp + "." + ext;
    LastIndexOfUnique(name, '.', |stamp|);
    assert name[|stamp| + 1..] == ext;
    assert name[..|name| - |ext| - 1] == stamp;
    assert name[|name| - |ext| - 1..] == "." + ext;
  }

  /** An accepted file's new name is the timestamped name, a '.', and the
      lower-cased extension, which is again what follows its last '.'.
      Nothing of the old base name survives; `FormattedNameRoundTrip` shows
      that the timestamp and field name can be read back from the prefix. */
  lemma AcceptedName(f: UploadFile, now: LocalTime)
    requires ValidateFile(Some(f), now).Next?
    ensures var name := ValidateFile(Some(f), now).file.originalname;
            var ext := ToLower(AfterLast(f.originalname, '.'));
            && |name| > |ext|
            && name[..|name| - |ext| - 1] == FormattedLocalTime(now, f.fieldname)
            && name[|name| - |ext| - 1..] == "." + ext
            && AfterLast(name, '.') == ext
  {
    ExtensionAfterLastDot(f.originalname);
    AcceptedFile(f, now);
    NamedDotted(ValidateFile(Some(f), now).file.originalname, FormattedLocalTime(now, f.fieldname),
                ToLower(AfterLast(f.originalname, '.')));
  }

  lemma NamedDotted(name: string, stamp: string, ext: string)
    requires name == stamp + "." + ext && '.' !in ext
    ensures && |name| > |ext|
            && AfterLast(name, '.') == ext
            && name[..|name| - |ext| - 1] == stamp
            && name[|name| - |ext| - 1..] == "." + ext
  {
    DottedName(stamp, ext);
  }

  /** Validation is stable: a file it accepted is accepted again, keeping
      its extension, whatever the clock then reads. */
  lemma RevalidationAccepts(f: UploadFile, now: LocalTime, later: LocalTime)
    requires ValidateFile(Some(f), now).Next?
    ensures var g := ValidateFile(Some(f), now).file;
            && ValidateFile(Some(g), later).Next?
            && Extension(ValidateFile(Some(g), later).file.originalname) == Extension(f.originalname)
  {
    var g := ValidateFile(Some(f), now).file;
    AcceptedName(f, now);
    ExtensionAfterLastDot(f.originalname);
    ExtensionAfterLastDot(g.originalname);
    ToLowerIdempotent(AfterLast(f.originalname, '.'));
    AcceptedName(g, later);
    ExtensionAfterLastDot(ValidateFile(Some(g), later).file.originalname);
    ToLowerIdempotent(Extension(f.originalname));
  }

  /** The limit is inclusive: exactly 10 MiB passes, one byte more fails. */
  lemma SizeLimitInclusive(f: UploadFile, now: LocalTime)
    requires ToLower(AfterLast(f.originalname, '.')) in AllowedExtensions
    ensures ValidateFile(Some(f.(size := 10485760)), now).Next?
    ensures ValidateFile(Some(f.(size := 10485761)), now) == Respond(Reply(400, "File size exceeds 10MB"))
  {
  }

  /** The new name carries the clock reading and the field name in a form
      that reads back: the text before the extension's dot parses to them. */
  lemma AcceptedNameReadsBack(f: UploadFile, now: LocalTime)
    requires ValidTime(now)
    requires ValidateFile(Some(f), now).Next?
    ensures var name := ValidateFile(Some(f), now).file.originalname;
            var ext := Extension(f.originalname);
            ParseFormattedName(name[..|name| - |ext| - 1]) == Some((now, f.fieldname))
  {
    AcceptedFile(f, now);
    ExtensionAfterLastDot(f.originalname);
    FormattedNameRoundTrip(now, f.fieldname);
    StampReadsBack(ValidateFile(Some(f), now).file.originalname, FormattedLocalTime(now, f.fieldname),
                   Extension(f.originalname), now, f.fieldname);
  }

  /** The accepted file's name is the timestamped name, a '.' and the extension. */
  lemma AcceptedFile(f: UploadFile, now: LocalTime)
    requires ValidateFile(Some(f), now).Next?
    ensures ValidateFile(Some(f), now).file.originalname
            == FormattedLocalTime(now, f.fieldname) + "." + Extension(f.originalname)
  {
  }

  lemma StampReadsBack(name: string, stamp: string, ext: string, t: LocalTime, fieldname: string)
    requires name == stamp + "." + ext && '.' !in ext
    requires ParseFormattedName(stamp) == Some((t, fieldname))
    ensures |name| > |ext| && ParseFormattedName(name[..|name| - |ext| - 1]) == Some((t, fieldname))
  {
    DottedName(stamp, ext);
  }

  /** "pic.JPG" has the extension "JPG" after its last dot. */
  lemma PicJpg()
    ensures AfterLast("pic.JPG", '.') == "JPG"
  {
    LastIndexOfUnique("pic.JPG", '.', 3);
  }

  /** Upper-case extensions pass: a file whose name ends in ".JPG" (such as
      "pic.JPG", by `PicJpg`) is accepted and renamed to the timestamped name
      with ".jpg". */
  lemma UpperCaseExtension(f: UploadFile, now: LocalTime)
    requires f.size <= MaxSize && AfterLast(f.originalname, '.') == "JPG"
    ensures ValidateFile(Some(f), now) == Next(f.(originalname := FormattedLocalTime(now, f.fieldname) + ".jpg"))
  {
    assert ToLower("JPG") == "jpg";
    assert AllowedExtensions[1] == "jpg";
    ExtensionAfterLastDot(f.originalname);
    var stamp := FormattedLocalTime(now, f.fieldname);
    assert stamp + "." + "jpg" == stamp + ".jpg";
  }

  /** A name without a dot is read as all extension: "PNG" is accepted and
      "photo" is not. */
  lemma DotlessNames(now: LocalTime)
    ensures ValidateFile(Some(UploadFile("logo", "PNG", "image/png", 2048)), now).Next?
    ensures ValidateFile(Some(UploadFile("logo", "photo", "image/png", 2048)), now)
            == Respond(Reply(400, "Only Images are allowed"))
  {
    assert AfterLast("PNG", '.') == "PNG";
    assert ToLower("PNG") == "png";
    assert AfterLast("photo", '.') == "photo";
    assert ToLower("photo") == "photo";
    assert forall e | e in AllowedExtensions :: |e| <= 4;
  }
}
