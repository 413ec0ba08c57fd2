/** The `addQuery` middleware: it looks the multipart field name up in a
    fixed table of output parameters and appends them to the file name as a
    query string `?ext=..&size=..&filesize=..`, which the image optimiser
    downstream reads. */
module QueryEncoder {
  import opened Wrappers
  import opened Strings
  import opened FileValidation

  /** One row of `fileParamsConfig`: the output format, the pixel size and
      the target file size, all as text. */
  datatype FileParams = FileParams(ext: string, size: string, filesize: string)

  /** `fileParamsConfig`, a plain finite map from field name to row. */
  const FileParamsConfig: map<string, FileParams> := map[
    "logo" := FileParams("png", "400x100", "150KB"),
    "icons" := FileParams("png", "64x64", "50KB"),
    "avatar" := FileParams("png", "400x400", "300KB"),
    "blog" := FileParams("webp", "1200x800", "400KB"),
    "image" := FileParams("jpeg", "2000x2000", "700KB"),
    "wallpaper" := FileParams("jpeg", "1920x1080", "1.5MB"),
    "linkedIn" := FileParams("jpeg", "1584x396", "1MB")
  ]

  /** The query string the template literal appends for a row. */
  function QueryFor(p: FileParams): string
  {
    "?ext=" + p.ext + "&size=" + p.size + "&filesize=" + p.filesize
  }

  /** `addQuery`: `None` when the field has no row (reading `.ext` of
      `undefined` throws before `next()` is reached); otherwise the file with
      the query appended to its name and every other field as it was. */
  function AddQuery(f: UploadFile): (r: Option<UploadFile>)
    ensures r.None? <==> f.fieldname !in FileParamsConfig
    ensures r.Some? ==> r.value.fieldname == f.fieldname && r.value.mimetype == f.mimetype
                        && r.value.size == f.size
    ensures r.Some? ==> |r.value.originalname| > |f.originalname|
                        && r.value.originalname[..|f.originalname|] == f.originalname
                        && r.value.originalname[|f.originalname|] == '?'
    ensures r.Some? ==> r.value.originalname == f.originalname + QueryFor(FileParamsConfig[f.fieldname])
  {
    if f.fieldname !in FileParamsConfig then None
    else
      var name := f.originalname + QueryFor(FileParamsConfig[f.fieldname]);
      assert name[..|f.originalname|] == f.originalname;
      Some(f.(originalname := name))
  }

  /** A text free of the characters that delimit the query. */
  predicate PlainValue(s: string) {
    '?' !in s && '&' !in s && '/' !in s && '$' !in s
  }

  /** Every row's values are plain: none holds '?', '&', '/' or '$'. */
  lemma ConfigValuesPlain()
    ensures forall k | k in FileParamsConfig ::
              PlainValue(FileParamsConfig[k].ext) && PlainValue(FileParamsConfig[k].size)
              && PlainValue(FileParamsConfig[k].filesize)
  {
    forall k | k in FileParamsConfig
      ensures PlainValue(FileParamsConfig[k].ext) && PlainValue(FileParamsConfig[k].size)
              && PlainValue(FileParamsConfig[k].filesize)
    {
      RowPlain(k);
    }
  }

  /** `ConfigValuesPlain` for one row: the row's literal values, checked
      one row at a time so that each check stays small. */
  lemma RowPlain(k: string)
    requires k in FileParamsConfig
    ensures PlainValue(FileParamsConfig[k].ext) && PlainValue(FileParamsConfig[k].size)
            && PlainValue(FileParamsConfig[k].filesize)
  {
    var p := FileParamsConfig[k];
    if k == "logo" {
      assert p == FileParams("png", "400x100", "150KB");
      PlainLogo();
    } else if k == "icons" {
      assert p == FileParams("png", "64x64", "50KB");
      PlainIcons();
    } else if k == "avatar" {
      assert p == FileParams("png", "400x400", "300KB");
      PlainAvatar();
    } else if k == "blog" {
      assert p == FileParams("webp", "1200x800", "400KB");
      PlainBlog();
    } else if k == "image" {
      assert p == FileParams("jpeg", "2000x2000", "700KB");
      PlainImage();
    } else if k == "wallpaper" {
      assert p == FileParams("jpeg", "1920x1080", "1.5MB");
      PlainWallpaper();
    } else {
      assert p == FileParams("jpeg", "1584x396", "1MB");
      PlainLinkedIn();
    }
  }

  // The literal values of each row are plain; used by `RowPlain`.
  lemma PlainLogo() ensures PlainValue("png") && PlainValue("400x100") && PlainValue("150KB") {}
  lemma PlainIcons() ensures PlainValue("png") && PlainValue("64x64") && PlainValue("50KB") {}
  lemma PlainAvatar() ensures PlainValue("png") && PlainValue("400x400") && PlainValue("300KB") {}
  lemma PlainBlog() ensures PlainValue("webp") && PlainValue("1200x800") && PlainValue("400KB") {}
  lemma PlainImage() ensures PlainValue("jpeg") && PlainValue("2000x2000") && PlainValue("700KB") {}
  lemma PlainWallpaper() ensures PlainValue("jpeg") && PlainValue("1920x1080") && PlainValue("1.5MB") {}
  lemma PlainLinkedIn() ensures PlainValue("jpeg") && PlainValue("1584x396") && PlainValue("1MB") {}

  /** The query of a row with plain values splits back, at '?' and at '&',
      into exactly the three `name=value` pairs it was built from. */
  lemma QueryForSplits(p: FileParams)
    requires PlainValue(p.ext) && PlainValue(p.size) && PlainValue(p.filesize)
    ensures var q := QueryFor(p);
            && q[0] == '?' && '?' !in q[1..]
            && Split(q[1..], '&') == ["ext=" + p.ext, "size=" + p.size, "filesize=" + p.filesize]
  {
    var a := "ext=" + p.ext;
    var b := "size=" + p.size;
    var c := "filesize=" + p.filesize;
    QueryForPieces(p);
    assert '&' !in "ext=" && '&' !in "size=" && '&' !in "filesize=";
    SplitThree(a, b, c, '&');
  }

  /** What `addQuery` appends reads back: after the old name comes a '?'
      and then exactly the three pairs of the field's row, split at '&'. */
  lemma AddQueryDecodes(f: UploadFile)
    requires f.fieldname in FileParamsConfig
    ensures var n := AddQuery(f).value.originalname;
            var p := FileParamsConfig[f.fieldname];
            var k := |f.originalname|;
            && |n| > k && n[..k] == f.originalname && n[k] == '?' && '?' !in n[k + 1..]
            && Split(n[k + 1..], '&') == ["ext=" + p.ext, "size=" + p.size, "filesize=" + p.filesize]
  {
    var p := FileParamsConfig[f.fieldname];
    ConfigValuesPlain();
    QueryForSplits(p);
    AppendedQuery(AddQuery(f).value.originalname, f.originalname, QueryFor(p));
  }

  lemma AppendedQuery(n: string, name: string, q: string)
    requires n == name + q && |q| >= 1
    ensures n[..|name|] == name && n[|name|] == q[0] && n[|name| + 1..] == q[1..]
  {
    assert n[|name|..] == q;
  }

  /** The query is '?' followed by the three pairs joined by '&', with no
      other '?'. */
  lemma QueryForPieces(p: FileParams)
    requires PlainValue(p.ext) && PlainValue(p.size) && PlainValue(p.filesize)
    ensures var q := QueryFor(p);
            var body := ("ext=" + p.ext) + ['&'] + ("size=" + p.size) + ['&'] + ("filesize=" + p.filesize);
            && q == "?" + body && q[0] == '?' && q[1..] == body && '?' !in body
  {
    var body := ("ext=" + p.ext) + ['&'] + ("size=" + p.size) + ['&'] + ("filesize=" + p.filesize);
    assert '?' !in "ext=" && '?' !in "size=" && '?' !in "filesize=";
    assert QueryFor(p) == "?" + body;
    assert ("?" + body)[1..] == body;
  }

  /** The table holds exactly these seven field names; lookup is by exact,
      case-sensitive text. */
  lemma ConfigKeys()
    ensures FileParamsConfig.Keys == {"logo", "icons", "avatar", "blog", "image", "wallpaper", "linkedIn"}
    ensures "Logo" !in FileParamsConfig && "linkedin" !in FileParamsConfig
  {
  }

  /** Every output format the table asks for is png, webp or jpeg, and each
      of these passes the upload whitelist. */
  lemma ConfigExtensionsAllowed()
    ensures forall k | k in FileParamsConfig ::
              FileParamsConfig[k].ext in {"png", "webp", "jpeg"}
              && FileParamsConfig[k].ext in AllowedExtensions
  {
    assert AllowedExtensions[0] == "jpeg";
    assert AllowedExtensions[2] == "png";
    assert AllowedExtensions[4] == "webp";
  }

  /** A "logo" upload gets `?ext=png&size=400x100&filesize=150KB`. */
  lemma LogoSuffix(f: UploadFile)
    requires f.fieldname == "logo"
    ensures AddQuery(f) == Some(f.(originalname := f.originalname + "?ext=png&size=400x100&filesize=150KB"))
  {
    assert FileParamsConfig["logo"] == FileParams("png", "400x100", "150KB");
    LogoQuery();
  }

  lemma LogoQuery()
    ensures QueryFor(FileParams("png", "400x100", "150KB")) == "?ext=png&size=400x100&filesize=150KB"
  {
  }
}
