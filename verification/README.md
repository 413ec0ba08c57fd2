# S3 image upload API: a Dafny model

This project models the request-handling core of a small Express service. The service
stores images in an S3 bucket and keeps one database record per image, holding its public
URL. An upload goes through this chain:

1. A validation middleware checks that a file is present, at most 10 MiB, and carries one
   of five image extensions. It then renames the file to
   `YYYY-MM-DD-HHMMSS-<field>.<ext>` from the local clock.
2. The `addQuery` middleware appends `?ext=..&size=..&filesize=..` to the name, taken from
   a fixed table keyed by the form field. An optimiser that runs outside this repository
   reads these parameters.
3. The S3 service puts the object under `Raw-images/<name>`. It returns the URL of the same
   name in `Optimize-images/` by replacing the first `/Raw-images/` segment.
4. The controller turns that URL into the stored one with `transformImageUrl`: the query
   is dropped, and the extension is replaced by the `ext` parameter.
   `extractFilename` later recovers the object name from the stored URL, for deletion.

The model has one module per source file, plus three shared modules:

- `Wrappers`: `Option`.
- `Strings`: JavaScript `split`, `lastIndexOf`, `toLowerCase` on ASCII, and `replace` with
  its `$` patterns.
- `Decimal`: `String(n)` and `padStart`.

The other modules:

- `RenameFile`: `getFormattedLocalTime`. The clock reading is an input.
- `FileValidation`: `fileValidationMiddleware`.
- `QueryEncoder`: `fileParamsConfig` and `addQuery`.
- `ImageService`: the S3 service. Commands are values, and the outcome of each send is a
  boolean input.
- `ImageController`: `extractFilename` and `transformImageUrl`. Each regular expression's
  first match is written out as a function with a specification.
- `Handlers`: `createImage`, `deleteImage` and `updateImage`, as functions over a store
  (object keys and records). Each takes the outcomes of the foreign calls as inputs and
  returns the response, the new store and the trace of foreign calls.
- `Pipeline`: the two upload routes as the router chains them, and what an accepted upload
  becomes end to end.

## Model

| member | source | states |
|---|---|---|
| RenameFile.FormattedNameRoundTrip | utils/renamefile.js:4-13 | For any valid clock reading, the name parses back to exactly that reading and field name. The year is unpadded and may be signed, the month is one-based, and the other fields have two digits. |
| RenameFile.SameNameIffSameSecond | utils/renamefile.js:2-15 | Two names are equal exactly when the clock readings and the field names are equal. Two uploads of one field in the same second collide. |
| RenameFile.TemplateShape | utils/renamefile.js:13 | With a four-character year, '-' sits at positions 4, 7, 10 and 17. Hours, minutes and seconds fill positions 11 to 16 with no separator, and the field name follows from position 18. |
| RenameFile.TimestampShape | utils/renamefile.js:4-13 | For a four-digit year, the part before `-<field>` is 17 characters long. The year is written unpadded, and each other component is its two-digit rendering. |
| RenameFile.MonthIsOneBased | utils/renamefile.js:5 | For a four-digit year, characters 5 and 6 of the name read back as the one-based month `month0 + 1`. January is "01" and December "12". |
| RenameFile.NameAvoids | utils/renamefile.js:4-13 | The name adds only digits and '-' to the field name. Any other character is absent from the name unless the field name holds it. |
| Decimal.Pad2Digits | utils/renamefile.js:5-10 | Below 100, the two-digit padding is the tens digit then the units digit. It starts with '0' exactly when the value is below 10. |
| Decimal.Pad2Wide | utils/renamefile.js:5-10 | From 100 upward, `padStart(2, "0")` leaves `String(n)` unchanged. |
| Decimal.Pad2AllDigits | utils/renamefile.js:5-10 | The padded rendering holds only digits, whatever the value. |
| Decimal.PadStartShape | utils/renamefile.js:5-10 | `padStart` only puts fill characters in front, and the input ends the result unchanged. |
| Decimal.TwoDigitsOfPad2 | utils/renamefile.js:5-10 | Reading the two padded characters gives the value back, for every value below 100. |
| Decimal.ParseNatToString | utils/renamefile.js:4 | `String(n)` of a natural number is all digits and reads back as `n`. |
| Decimal.IntToString | utils/renamefile.js:4 | `String(n)` is all digits exactly when `n >= 0`. A negative year is '-' followed by digits. |
| FileValidation.ValidateFile | middlewares/fileValidationMiddleware.js:6-37 | A missing file gets 400 "No file provided". A size above 10485760 gets 400 "File size exceeds 10MB", even when the extension is also bad. A size within the limit with an extension outside the whitelist gets 400 "Only Images are allowed". `next` is called, once, exactly when the file is present, within the limit and whitelisted. It then carries the same field, MIME type and size. |
| FileValidation.ExtensionAfterLastDot | middlewares/fileValidationMiddleware.js:19 | The extension is the lower-cased text after the last '.', or the whole name when there is no '.'. It never holds a '.'. |
| FileValidation.AcceptedName | middlewares/fileValidationMiddleware.js:32-33 | An accepted file's new name is the timestamped name, a '.', and the lower-cased extension. Nothing of the old base name remains. |
| FileValidation.AcceptedNameReadsBack | middlewares/fileValidationMiddleware.js:32-33 | The text before the new name's extension parses back to the clock reading and the field name. |
| FileValidation.RevalidationAccepts | middlewares/fileValidationMiddleware.js:19-33 | A file that was accepted is accepted again at any later time, with the same extension. |
| FileValidation.SizeLimitInclusive | middlewares/fileValidationMiddleware.js:11-16 | With an allowed extension, exactly 10485760 bytes pass and 10485761 bytes get the size message. |
| FileValidation.UpperCaseExtension | middlewares/fileValidationMiddleware.js:19-33 | A file within the limit whose name ends in ".JPG" is accepted and renamed to the timestamped name plus ".jpg". |
| FileValidation.PicJpg | middlewares/fileValidationMiddleware.js:19 | The text after the last dot of "pic.JPG" is "JPG". |
| FileValidation.DotlessNames | middlewares/fileValidationMiddleware.js:19-29 | A name without a dot counts entirely as its extension. "PNG" is accepted, and "photo" gets 400 "Only Images are allowed". |
| Strings.SplitLast | middlewares/fileValidationMiddleware.js:19 | The last piece of `split(".")` is the text after the last '.'. This is what `.pop()` returns. |
| Strings.SplitJoin | middlewares/fileValidationMiddleware.js:19 | Joining the pieces of `split(c)` with `c` gives the original text back. |
| Strings.ToLowerIdempotent | middlewares/fileValidationMiddleware.js:19 | Lower-casing twice gives the same result as lower-casing once. |
| QueryEncoder.AddQuery | middlewares/addQuery.js:11-16 | The result is absent exactly when the field name has no row in the table, which is where the source throws before `next`. Otherwise the old name is a prefix of the new one, a '?' follows it, and the other file fields are unchanged. The new name is the old one followed by the query of the field's row. |
| QueryEncoder.AddQueryDecodes | middlewares/addQuery.js:12-13 | The name `addQuery` produces reads back. It is the old name, a '?', and a '?'-free text that splits at '&' into exactly `ext=..`, `size=..` and `filesize=..` of the field's row. |
| QueryEncoder.QueryForSplits | middlewares/addQuery.js:13 | The appended text is '?' followed by a '?'-free query. Split at '&', the query gives back exactly `ext=..`, `size=..` and `filesize=..` of the row. |
| QueryEncoder.ConfigKeys | middlewares/addQuery.js:1-9 | The table has exactly the seven keys logo, icons, avatar, blog, image, wallpaper and linkedIn. Lookup is case-sensitive: "Logo" and "linkedin" have no row. |
| QueryEncoder.ConfigExtensionsAllowed | middlewares/addQuery.js:1-9 | Every row's `ext` is png, webp or jpeg, and each of these is in the upload whitelist. |
| QueryEncoder.ConfigValuesPlain | middlewares/addQuery.js:1-9 | No value in the table holds '?', '&', '/' or '$'. |
| QueryEncoder.LogoSuffix | middlewares/addQuery.js:2-13 | The field "logo" gets the suffix `?ext=png&size=400x100&filesize=150KB`. |
| ImageService.ConvertImageUrl | services/imageService.service.js:16-22 | The result is false exactly when the URL lacks `/<source>/`. Otherwise only the first occurrence is replaced by `/<target>/`, and the text before and after it is unchanged. |
| ImageService.ConvertLength | services/imageService.service.js:20 | A successful conversion changes the length by \|target\| − \|source\|. |
| ImageService.ConvertTwiceFails | services/imageService.service.js:16-22 | Take a URL with exactly one source segment, and distinct slash-free folder names. Converting the converted URL again fails. |
| Strings.ReplaceFirst | services/imageService.service.js:20 | `replace` with a string pattern leaves the text unchanged when the pattern is absent. Otherwise it replaces only the leftmost occurrence, with the `$`-expanded replacement. A replacement without '$' is inserted as it is. |
| Strings.SubstituteLiteral | controllers/image.controller.js:20 | A replacement text without '$' is inserted literally. |
| ImageService.UploadCommand | services/imageService.service.js:27-35 | The put targets `Raw-images/<originalname>` with the file's MIME type. Its key splits into the folder followed by the name's own segments. |
| ImageService.UploadToS3 | services/imageService.service.js:25-49 | The result is false exactly when the send fails, whatever the bucket and region: the built URL always holds `/Raw-images/`. A successful send gives `https://<bucket>.s3.<region>.amazonaws.com/Optimize-images/<originalname>` when bucket and region hold no '/'. |
| ImageService.UploadUrlConverts | services/imageService.service.js:37-44 | The raw-folder URL of an upload converts to the optimised-folder URL of the same name. |
| ImageService.BaseUrlSlashes | services/imageService.service.js:37 | For a slash-free bucket and region, the URL base has '/' only in "https://". |
| ImageService.ObjectKeysAgree | services/imageService.service.js:51-126 | Get, delete and download use the same key `Optimize-images/<fileName>`. That key lies under the listing prefix. |
| ImageService.ListImagesFromS3 | services/imageService.service.js:69-91 | A failed send, absent `Contents`, or one or no entries give []. Otherwise the result has one URL fewer than the listing, and entry i is the URL of listed key i+1. |
| ImageService.ListSkipsFirst | services/imageService.service.js:82-86 | The first listed object never appears. Each later one appears in order. |
| ImageService.DeleteImageFromS3 | services/imageService.service.js:94-108 | The delete targets `Optimize-images/<fileName>` ("null" for a null name). The result is true exactly when the send succeeded. |
| ImageController.ExtractFilename | controllers/image.controller.js:8-13 | The result is null exactly when the URL is empty or ends in '/'. Otherwise it is a non-empty, slash-free suffix of the URL that is either the whole URL or follows a '/'. |
| ImageController.ExtractAfterSlash | controllers/image.controller.js:8-13 | A non-empty, slash-free name after a prefix ending in '/' is exactly what `extractFilename` returns. |
| ImageController.QueryText | controllers/image.controller.js:16 | `split("?")[1]` is absent exactly when the URL has no '?'. When present, it is the text after the first '?' up to the next '?' or the end. |
| ImageController.FindExtValue | controllers/image.controller.js:17 | Finds the first place where `ext=` begins the query or follows '&'. No earlier such place exists. |
| ImageController.ExtInQuery | controllers/image.controller.js:17-18 | There is no value exactly when `ext=` never begins the query or follows '&'. Otherwise the value is the run up to the next '&' after the first such `ext=`. |
| ImageController.ExtParam | controllers/image.controller.js:16-18 | A URL without a query text has no `ext`. Otherwise the result is the query text's `ext`, or none when it has no `ext`. The empty query text has none. |
| ImageController.ExtensionDot | controllers/image.controller.js:20 | The match of `/\.[^/.]+$/` is unique: the last '.', followed by at least one character, none of them '.' or '/'. |
| ImageController.ReplaceExtension | controllers/image.controller.js:20 | Without an extension the text is unchanged. Otherwise the extension, dot included, becomes "." + ext. |
| ImageController.TransformDropsQuery | controllers/image.controller.js:15-23 | The transformed URL holds no '?'. |
| ImageController.TransformKeepsDirectory | controllers/image.controller.js:15-23 | A '?'-free prefix ending in '/' survives the transformation. |
| ImageController.TransformWithQuery | controllers/image.controller.js:15-23 | For `path?query` with a non-empty query, the path's extension is replaced by the query's `ext`, or by "null" when the query has none. |
| ImageController.TransformWithoutQuery | controllers/image.controller.js:15-23 | Without a '?', the extension becomes ".null". |
| ImageController.ExtAtStart | controllers/image.controller.js:17-18 | A query that starts with `ext=<e>&` has `e` as its `ext`. |
| ImageController.ExtAfterAmpersand | controllers/image.controller.js:17-18 | `ext=` after '&' is found: "size=1&ext=webp" gives "webp". |
| ImageController.ExtInsideName | controllers/image.controller.js:17-18 | `ext=` inside a longer name is not a match: "text=png" has no `ext`. |
| ImageController.ExtEmpty | controllers/image.controller.js:17-18 | The value may be empty: "ext=" gives "". |
| Handlers.CreateImage | controllers/image.controller.js:25-39 | The upload is sent first. If it yields no URL, the response is 500 "Upload failed" and no record is saved. The response is 201 exactly when the put and the save succeed. A failed save after the put gives 500 "Internal server error". On a 201, the response and the new record hold `transformImageUrl` of the URL `uploadToS3` returned, and the save is the last call. Any other outcome leaves the records unchanged. |
| Handlers.CreateAddsOneRecord | controllers/image.controller.js:30-34 | With a fresh id and a successful put and save, the reply is 201. One record is added and every existing record stays as it was. |
| Handlers.DeleteImage | controllers/image.controller.js:71-94 | The response is 400 exactly when the id is invalid, and then nothing is called. A lookup that throws gives 500 "Internal server error" after the lookup alone. A missing record gives 404 with no S3 call. A failed S3 delete gives 500 "Deletion failed" and changes nothing. The response is 200 exactly when every call succeeds. The record is then removed, together with the object named by `extractFilename` of its URL, and the calls are the lookup, the S3 delete, then the record delete. A record delete that throws gives 500 "Internal server error": the object is already gone and the record stays. |
| Handlers.UpdateImage | controllers/image.controller.js:98-137 | The response is 400 exactly when the id is invalid. A lookup that throws gives 500 "Internal server error" after the lookup alone. A missing record gives 404 with no S3 call. A failed delete gives 500 "Failed to delete old image" with nothing changed and no put. The response is 200 exactly when every call succeeds. A non-200 response leaves the records unchanged. |
| Handlers.ReplaceImage | controllers/image.controller.js:111-132 | After the lookup, the trace is the delete of the old object, then the put of the new one, then only database calls. A failed put gives 500 "Failed to upload new image", with the old object gone and the record unchanged. The response is 200 exactly when the put and the update succeed, and it points the record at `transformImageUrl` of the new upload's URL. A failed update after the put gives 500 "Internal server error". |
| Handlers.UpdateDeletesFirst | controllers/image.controller.js:111-118 | Whenever `updateImage` sends a put, an earlier delete in its trace was sent without error. |
| Handlers.FailedUpdateLosesOldObject | controllers/image.controller.js:111-122 | After "Failed to upload new image", the record still holds the old URL, but that URL's object is no longer in the bucket. |
| Handlers.StoredUrlOptimized | controllers/image.controller.js:27-29 | For a plain configuration, the URL a handler stores lies in the bucket's `Optimize-images/` folder and holds no '?'. |
| Handlers.CreateKeepsStoredUrls | controllers/image.controller.js:25-39 | `createImage` keeps every stored URL inside the optimised folder. |
| Handlers.DeleteKeepsStoredUrls | controllers/image.controller.js:71-94 | `deleteImage` keeps every stored URL inside the optimised folder. |
| Handlers.UpdateKeepsStoredUrls | controllers/image.controller.js:98-137 | `updateImage` keeps every stored URL inside the optimised folder. |
| Pipeline.UploadRoute | routes/image.routes.js:17-23 | A file the validation rejects gets its 400 with no call and nothing stored. The chain stops in `addQuery` exactly when the field has no row. A 201 means the file passed validation. |
| Pipeline.UpdateRoute | routes/image.routes.js:26-32 | The file is validated before the id is looked at, so a bad file gets its 400 whatever the id. A 200 needs both a valid file and a valid id. |
| Pipeline.StampPlain | utils/renamefile.js:13 | For a field in the table, the timestamped name holds neither '/' nor '?'. |
| Pipeline.TransformUploadUrl | controllers/image.controller.js:15-23 | The URL of `stamp.e` plus a row's query transforms into the same path with the row's `ext` as its extension. |
| Pipeline.UploadStoresOptimizedName | controllers/image.controller.js:25-34 | An accepted upload of a field in the table, with every call succeeding, gets 201. It stores `https://<bucket>.s3.<region>.amazonaws.com/Optimize-images/<stamp>.<row ext>`. The raw key carries the query. `extractFilename` of the stored URL gives `<stamp>.<row ext>`. |
| Pipeline.DeleteRemovesUploadedName | controllers/image.controller.js:83-88 | Deleting that record removes the object `Optimize-images/<stamp>.<row ext>` and restores the other records. |
| Pipeline.LogoStoredAsPng | middlewares/addQuery.js:2-13 | A logo upload is stored as `<stamp>.png` in the optimised folder, whatever image type was sent. |
| Pipeline.UpdateStoresOptimizedName | controllers/image.controller.js:118-128 | An accepted update points the record at the same URL an upload at that time would store. The old record's object is gone, unless the new raw key happens to equal it. |

## Left out

- Express, the listener and multer are wiring and I/O. This includes `upload.single("logo")`, which makes multer reject every field other than "logo" on both routes. The model accepts any field name and reports an unknown one through `addQuery`.
- The AWS SDK, mongoose and `connectDB` are foreign services. Each send, lookup and write is a boolean outcome.
- The database's choice of a new record id is an input. `ObjectId.isValid` is an input boolean.
- The wall clock is an input, `LocalTime`.
- The file buffer, the `Body` stream that get and download return, the streaming and headers of `downloadImage`, and console logging are all I/O.
- `getAllImages`, `getImageById`, `downloadImage` and `listAllImagesFromS3` are read-only handlers that change nothing. Only the key construction that download and get share is modelled.
- The optimiser that turns `Raw-images/...` objects into `Optimize-images/...` objects is not part of this repository. The bucket's keys therefore change only by the handlers' own puts and deletes.
- The error the framework reports when `addQuery` throws is not modelled. `Pipeline.UploadRoute` and `Pipeline.UpdateRoute` return no response in that case.
- The second `res.json` after the `try` in `deleteImage` (controllers/image.controller.js:95) is unreachable after the returns. When the `catch` runs, it is a headers-already-sent error.
- `toLowerCase` is modelled on ASCII letters only. Unicode case mapping is left out.
- `fileParamsConfig` is a plain finite map. Prototype-chain names such as "toString" do not find a row.
- Asynchronous interleaving of requests is left out. A handler's calls happen in the order of its trace.
- ImageService.UploadToS3: the URL is stated only for a bucket and region without '/'. With a '/' in them, the first `/Raw-images/` may be found inside the host part.
- ImageService.ConvertImageUrl: the exact result is stated only for a target without '$'. The body still expands `$` patterns as `replace` does.
- ImageController.ReplaceExtension: the exact result is stated only for an `ext` without '$'. The body still expands `$` patterns.
- Handlers.CreateImage: `newId` is a parameter. The contract does not assume that it is fresh, so it also covers overwriting a record, which a database-assigned id never does. `Handlers.CreateAddsOneRecord` states the fresh-id case.
