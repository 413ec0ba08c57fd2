/** The S3 service: the object keys and public URLs it builds, the commands
    it sends, and what each call returns when the send succeeds or fails.
    The S3 client is not modelled; whether a send succeeds, and what a
    listing returns, are inputs. */
module ImageService {
  import opened Wrappers
  import opened Strings
  import opened FileValidation

  /** Folder the upload path writes to. */
  const RawFolder: string := "Raw-images"

  /** Folder the optimiser writes to, and the one get, delete, download and
      list read from. */
  const OptimizedFolder: string := "Optimize-images"

  /** `/<folder>/`, the path segment `convertImageUrl` looks for. */
  function Segment(folder: string): (r: string)
    ensures |r| == |folder| + 2 && r[0] == '/' && r[|r| - 1] == '/' && r[1..|r| - 1] == folder
  {
    "/" + folder + "/"
  }

  // ---------------------------------------------------------------------
  // convertImageUrl
  // ---------------------------------------------------------------------

  /** `convertImageUrl`: `None` (the source's `false`) when `url` lacks the
      segment `/<source>/`; otherwise `url` with its first such segment
      replaced by `/<target>/` through `String.prototype.replace`. */
  function ConvertImageUrl(url: string, source: string, target: string): (r: Option<string>)
    ensures r.None? <==> !Contains(url, Segment(source))
    ensures forall i: nat :: FirstOccurrence(url, Segment(source), i) && '$' !in target ==>
              r == Some(url[..i] + Segment(target) + url[i + |source| + 2..])
  {
    if !Contains(url, Segment(source)) then None
    else
      assert '$' !in target ==> '$' !in Segment(target) by {
        assert forall x | x in Segment(target) :: x == '/' || x in target;
      }
      Some(ReplaceFirst(url, Segment(source), Segment(target)))
  }

  /** Only the first segment changes, so the URL grows by the difference of
      the folder names' lengths. */
  lemma ConvertLength(url: string, source: string, target: string)
    requires Contains(url, Segment(source)) && '$' !in target
    ensures ConvertImageUrl(url, source, target).Some?
    ensures |ConvertImageUrl(url, source, target).value| == |url| - |source| + |target|
  {
    var i := IndexOf(url, Segment(source)).value;
    assert FirstOccurrence(url, Segment(source), i);
  }

  /** Each index of the window [k, k + |p|) of `s` holding `p` reads the
      matching character of `p`. */
  lemma OccursAtIndex(s: string, p: string, k: nat, j: nat)
    requires OccursAt(s, p, k) && j < |p|
    ensures s[k + j] == p[j]
  {
    assert s[k..k + |p|][j] == s[k + j];
  }

  /** Agreeing with `p` character by character is an occurrence. */
  lemma OccursAtByIndex(s: string, p: string, k: nat)
    requires k + |p| <= |s|
    requires forall j | 0 <= j < |p| :: s[k + j] == p[j]
    ensures OccursAt(s, p, k)
  {
    assert s[k..k + |p|] == p;
  }

  /** An occurrence of `/<folder>/` for a slash-free folder has slashes at
      both ends and none in between. */
  lemma SegmentSlashes(s: string, folder: string, k: nat)
    requires '/' !in folder && OccursAt(s, Segment(folder), k)
    ensures s[k] == '/' && s[k + |folder| + 1] == '/'
    ensures forall m | k < m <= k + |folder| :: s[m] != '/'
  {
    var p := Segment(folder);
    OccursAtIndex(s, p, k, 0);
    OccursAtIndex(s, p, k, |folder| + 1);
    forall m | k < m <= k + |folder| ensures s[m] != '/' {
      OccursAtIndex(s, p, k, m - k);
      assert p[m - k] == folder[m - k - 1];
    }
  }

  /** With slash-free, different folder names, replacing the only source
      segment of `a + /<source>/ + b` leaves no source segment at `k`. */
  lemma NoSegmentAt(a: string, b: string, source: string, target: string, k: nat)
    requires '/' !in source && '/' !in target && source != target
    requires forall j: nat :: OccursAt(a + Segment(source) + b, Segment(source), j) ==> j == |a|
    ensures !OccursAt(a + Segment(target) + b, Segment(source), k)
  {
    var n := |a|;
    if k + |source| + 2 <= n + 1 {
      NoSegmentBefore(a, b, source, target, k);
    } else if k < n {
      NoSegmentAcross(a, b, source, target, k);
    } else if k == n {
      NoSegmentAtSwap(a, b, source, target);
    } else if k < n + |target| + 1 {
      NoSegmentInside(a, b, source, target, k);
    } else {
      NoSegmentAfter(a, b, source, target, k);
    }
  }

  /** A window in `a` and the shared first slash was already in the input,
      before its only source segment. */
  lemma NoSegmentBefore(a: string, b: string, source: string, target: string, k: nat)
    requires forall j: nat :: OccursAt(a + Segment(source) + b, Segment(source), j) ==> j == |a|
    requires k + |source| + 2 <= |a| + 1
    ensures !OccursAt(a + Segment(target) + b, Segment(source), k)
  {
    var p := Segment(source);
    var url := a + p + b;
    var out := a + Segment(target) + b;
    var n := |a|;
    assert url[..n + 1] == a + "/" == out[..n + 1];
    assert out[k..k + |p|] == out[..n + 1][k..k + |p|] == url[..n + 1][k..k + |p|] == url[k..k + |p|];
    assert OccursAt(out, p, k) ==> OccursAt(url, p, k);
  }

  /** A window starting in `a` and reaching past the first slash would hold
      that slash strictly inside. */
  lemma NoSegmentAcross(a: string, b: string, source: string, target: string, k: nat)
    requires '/' !in source
    requires k < |a| < k + |source| + 1
    ensures !OccursAt(a + Segment(target) + b, Segment(source), k)
  {
    var out := a + Segment(target) + b;
    assert out[|a|] == '/';
    if OccursAt(out, Segment(source), k) {
      SegmentSlashes(out, source, k);
    }
  }

  /** At the swapped position the window reads the target name, which is
      not the source name. */
  lemma NoSegmentAtSwap(a: string, b: string, source: string, target: string)
    requires '/' !in source && '/' !in target && source != target
    ensures !OccursAt(a + Segment(target) + b, Segment(source), |a|)
  {
    var out := a + Segment(target) + b;
    var n := |a|;
    if |source| == |target| {
      assert out[n + 1..n + 1 + |source|] == target;
      if OccursAt(out, Segment(source), n) {
        SegmentText(out, source, n);
      }
    } else if |source| < |target| {
      assert out[n + |source| + 1] == target[|source|];
      if OccursAt(out, Segment(source), n) {
        SegmentSlashes(out, source, n);
      }
    } else {
      assert out[n + |target| + 1] == '/';
      if OccursAt(out, Segment(source), n) {
        SegmentSlashes(out, source, n);
      }
    }
  }

  /** A window cannot start inside the slash-free target name. */
  lemma NoSegmentInside(a: string, b: string, source: string, target: string, k: nat)
    requires '/' !in target
    requires |a| < k < |a| + |target| + 1
    ensures !OccursAt(a + Segment(target) + b, Segment(source), k)
  {
    var out := a + Segment(target) + b;
    assert out[k] == target[k - |a| - 1];
  }

  /** A window in the shared last slash and `b` was already in the input,
      after its only source segment. */
  lemma NoSegmentAfter(a: string, b: string, source: string, target: string, k: nat)
    requires forall j: nat :: OccursAt(a + Segment(source) + b, Segment(source), j) ==> j == |a|
    requires k >= |a| + |target| + 1
    ensures !OccursAt(a + Segment(target) + b, Segment(source), k)
  {
    var p := Segment(source);
    var q := Segment(target);
    var url := a + p + b;
    var out := a + q + b;
    var n := |a|;
    var k': nat := k - |q| + |p|;
    if k + |p| <= |out| {
      var d := k - n - |q| + 1;
      assert out[n + |q| - 1..] == "/" + b == url[n + |p| - 1..];
      assert out[k..k + |p|] == out[n + |q| - 1..][d..d + |p|] == url[n + |p| - 1..][d..d + |p|]
                             == url[k'..k' + |p|];
      assert OccursAt(out, p, k) ==> OccursAt(url, p, k');
    }
  }

  /** An occurrence of `/<folder>/` holds `folder` right after its first slash. */
  lemma SegmentText(s: string, folder: string, k: nat)
    requires OccursAt(s, Segment(folder), k)
    ensures s[k + 1..k + 1 + |folder|] == folder
  {
    assert s[k + 1..k + 1 + |folder|] == s[k..k + |folder| + 2][1..|folder| + 1];
  }

  /** Hence no source segment is left anywhere. */
  lemma NoSegmentAfterSwap(a: string, b: string, source: string, target: string)
    requires '/' !in source && '/' !in target && source != target
    requires forall j: nat :: OccursAt(a + Segment(source) + b, Segment(source), j) ==> j == |a|
    ensures !Contains(a + Segment(target) + b, Segment(source))
  {
    forall k: nat | k <= |a + Segment(target) + b|
      ensures !OccursAt(a + Segment(target) + b, Segment(source), k)
    {
      NoSegmentAt(a, b, source, target, k);
    }
  }

  /** Converting twice fails: after the only raw segment has become the
      target segment there is none left for a second conversion. */
  lemma ConvertTwiceFails(url: string, source: string, target: string)
    requires '/' !in source && '/' !in target && source != target && '$' !in target
    requires Contains(url, Segment(source))
    requires forall j: nat, k: nat :: OccursAt(url, Segment(source), j) && OccursAt(url, Segment(source), k) ==> j == k
    ensures ConvertImageUrl(url, source, target).Some?
    ensures ConvertImageUrl(ConvertImageUrl(url, source, target).value, source, target).None?
  {
    var p := Segment(source);
    var i := IndexOf(url, p).value;
    assert FirstOccurrence(url, p, i);
    var a := url[..i];
    var b := url[i + |p|..];
    assert url == a + p + b;
    NoSegmentAfterSwap(a, b, source, target);
  }

  // ---------------------------------------------------------------------
  // Keys, URLs and commands
  // ---------------------------------------------------------------------

  /** The virtual-hosted bucket address `https://<bucket>.s3.<region>.amazonaws.com`. */
  function BaseUrl(bucket: string, region: string): string
  {
    "https://" + bucket + ".s3." + region + ".amazonaws.com"
  }

  /** Key of an upload: `Raw-images/<name>`. */
  function UploadKey(name: string): string
  {
    RawFolder + "/" + name
  }

  /** Key that get, delete and download address: `Optimize-images/<name>`;
      a missing name renders as "null" in the template literal. */
  function ObjectKey(fileName: Option<string>): string
  {
    OptimizedFolder + "/" + (match fileName case None => "null" case Some(n) => n)
  }

  /** The commands the service sends. */
  datatype S3Command =
    | PutObject(key: string, contentType: string)
    | GetObject(key: string)
    | DeleteObject(key: string)
    | ListObjects(prefix: string)

  /** The command `uploadToS3` sends for a file. */
  function UploadCommand(file: UploadFile): (c: S3Command)
    ensures c.PutObject? && c.contentType == file.mimetype
    ensures Split(c.key, '/') == [RawFolder] + Split(file.originalname, '/')
  {
    SplitAtFirst(RawFolder, file.originalname, '/');
    PutObject(UploadKey(file.originalname), file.mimetype)
  }

  /** The commands of `getImageFromS3`, `deleteImageFromS3` and
      `downloadImageFromS3` for a name. */
  function GetCommand(fileName: Option<string>): S3Command { GetObject(ObjectKey(fileName)) }
  function DeleteCommand(fileName: Option<string>): S3Command { DeleteObject(ObjectKey(fileName)) }
  function DownloadCommand(fileName: Option<string>): S3Command { GetObject(ObjectKey(fileName)) }

  /** The command `listImagesFromS3` sends. */
  const ListCommand: S3Command := ListObjects(OptimizedFolder + "/")

  /** Get, delete and download address one and the same object, in the
      optimised folder, and a slash-free name is the key's whole second
      path segment, so the key reads back to the name. */
  lemma ObjectKeysAgree(name: string)
    requires '/' !in name
    ensures GetCommand(Some(name)).key == DeleteCommand(Some(name)).key == DownloadCommand(Some(name)).key
    ensures Split(DeleteCommand(Some(name)).key, '/') == [OptimizedFolder, name]
    ensures ListCommand.prefix <= DeleteCommand(Some(name)).key
  {
    SplitAtFirst(OptimizedFolder, name, '/');
    SplitNone(name, '/');
  }

  /** The only slashes of the bucket address are the two of `https://`
      when bucket and region hold none. */
  lemma BaseUrlSlashes(bucket: string, region: string)
    requires '/' !in bucket && '/' !in region
    ensures var u := BaseUrl(bucket, region);
            |u| >= 26 && u[6] == '/' && u[7] == '/'
            && forall m | 0 <= m < |u| && m != 6 && m != 7 :: u[m] != '/'
  {
    var u := BaseUrl(bucket, region);
    var p := "https://";
    var r := ".s3." + region + ".amazonaws.com";
    assert u == p + (bucket + r);
    assert forall m | 8 <= m < |u| :: u[m] in bucket || u[m] in r by {
      forall m | 8 <= m < |u| ensures u[m] in bucket || u[m] in r {
        if m < 8 + |bucket| {
          assert u[m] == bucket[m - 8];
        } else {
          assert u[m] == r[m - 8 - |bucket|];
        }
      }
    }
    assert forall x | x in r :: x in ".s3." || x in region || x in ".amazonaws.com" by {
      var r1 := ".s3.";
      var r2 := ".amazonaws.com";
      assert r == r1 + region + r2;
      forall x | x in r ensures x in r1 || x in region || x in r2 {
        var m :| 0 <= m < |r| && r[m] == x;
        if m < 4 {
          assert r[m] == r1[m];
        } else if m < 4 + |region| {
          assert r[m] == region[m - 4];
        } else {
          assert r[m] == r2[m - 4 - |region|];
        }
      }
    }
  }

  // ---------------------------------------------------------------------
  // Calls
  // ---------------------------------------------------------------------

  /** `uploadToS3` for a file, given whether the put was sent without error:
      a failed send gives `None` (`false`); otherwise the public URL of the
      raw object, converted into the optimised folder. */
  function UploadToS3(bucket: string, region: string, file: UploadFile, sent: bool): (r: Option<string>)
    ensures r.Some? <==> sent
    ensures sent && '/' !in bucket && '/' !in region ==>
              r == Some(BaseUrl(bucket, region) + "/" + OptimizedFolder + "/" + file.originalname)
  {
    if !sent then None
    else
      var url := BaseUrl(bucket, region) + "/" + UploadKey(file.originalname);
      assert url == BaseUrl(bucket, region) + Segment(RawFolder) + file.originalname;
      assert OccursAt(url, Segment(RawFolder), |BaseUrl(bucket, region)|);
      if '/' !in bucket && '/' !in region then
        UploadUrlConverts(bucket, region, file.originalname);
        ConvertImageUrl(url, RawFolder, OptimizedFolder)
      else ConvertImageUrl(url, RawFolder, OptimizedFolder)
  }

  /** After a prefix whose only slashes sit at 6 and 7, the first raw
      segment is the one the prefix is followed by. */
  lemma RawSegmentFirst(base: string, name: string)
    requires |base| >= 19
    requires forall m | 0 <= m < |base| && m != 6 && m != 7 :: base[m] != '/'
    ensures FirstOccurrence(base + Segment(RawFolder) + name, Segment(RawFolder), |base|)
  {
    var p := Segment(RawFolder);
    var url := base + p + name;
    var n := |base|;
    assert url[n..n + |p|] == p;
    assert p[1] == 'R';
    forall k: nat | k < n ensures !OccursAt(url, p, k) {
      assert url[k] == base[k];
      if k != 6 && k != 7 {
        assert url[k] != '/';
      } else {
        assert url[k + 1] == base[k + 1];
        assert url[k + 11] == base[k + 11];
        if OccursAt(url, p, k) {
          SegmentSlashes(url, RawFolder, k);
        }
      }
    }
  }

  /** The first raw segment of an upload URL is the one right after the
      bucket address, whatever the name holds. */
  lemma UploadUrlConverts(bucket: string, region: string, name: string)
    requires '/' !in bucket && '/' !in region
    ensures ConvertImageUrl(BaseUrl(bucket, region) + "/" + UploadKey(name), RawFolder, OptimizedFolder)
            == Some(BaseUrl(bucket, region) + "/" + OptimizedFolder + "/" + name)
  {
    BaseUrlSlashes(bucket, region);
    ConvertsAfterBase(BaseUrl(bucket, region), name);
  }

  lemma ConvertsAfterBase(base: string, name: string)
    requires |base| >= 19
    requires forall m | 0 <= m < |base| && m != 6 && m != 7 :: base[m] != '/'
    ensures ConvertImageUrl(base + "/" + UploadKey(name), RawFolder, OptimizedFolder)
            == Some(base + "/" + OptimizedFolder + "/" + name)
  {
    RawSegmentFirst(base, name);
    var url := base + Segment(RawFolder) + name;
    var n := |base|;
    assert base + "/" + UploadKey(name) == url;
    assert url[..n] == base;
    assert url[n + |RawFolder| + 2..] == name;
    assert base + Segment(OptimizedFolder) + name == base + "/" + OptimizedFolder + "/" + name;
  }

  /** What a listing request came back with: the send failed, or the reply
      carried `Contents` (absent or a list of object keys). */
  datatype ListReply = SendFailed | Listed(contents: Option<seq<string>>)

  /** The public URL of an object key. */
  function ObjectUrl(bucket: string, region: string, key: string): string
  {
    BaseUrl(bucket, region) + "/" + key
  }

  /** `listImagesFromS3`: the URLs of the listed keys, skipping the first
      one; nothing when the send failed, `Contents` is absent, or it holds at
      most one key. */
  function ListImagesFromS3(bucket: string, region: string, reply: ListReply): (r: seq<string>)
    ensures reply.SendFailed? || reply.contents.None? || |reply.contents.value| <= 1 ==> r == []
    ensures reply.Listed? && reply.contents.Some? && |reply.contents.value| > 1 ==>
              |r| == |reply.contents.value| - 1
              && forall i | 0 <= i < |r| :: r[i] == ObjectUrl(bucket, region, reply.contents.value[i + 1])
  {
    match reply
    case SendFailed => []
    case Listed(contents) =>
      match contents
      case None => []
      case Some(c) =>
        if |c| <= 1 then [] else seq(|c| - 1, i requires 0 <= i < |c| - 1 => ObjectUrl(bucket, region, c[i + 1]))
  }

  /** The first listed key never shows: adding a key in front of a listing
      of at least one key prepends the URL of what was first before. */
  lemma ListSkipsFirst(bucket: string, region: string, k0: string, k1: string, rest: seq<string>)
    ensures ListImagesFromS3(bucket, region, Listed(Some([k0, k1] + rest)))
            == [ObjectUrl(bucket, region, k1)] + ListImagesFromS3(bucket, region, Listed(Some([k1] + rest)))
  {
    var r := ListImagesFromS3(bucket, region, Listed(Some([k0, k1] + rest)));
    var t := ListImagesFromS3(bucket, region, Listed(Some([k1] + rest)));
    if |rest| == 0 {
      assert t == [];
    } else {
      assert |r| == 1 + |t|;
      forall i | 0 <= i < |r| ensures r[i] == ([ObjectUrl(bucket, region, k1)] + t)[i] {
        if i > 0 {
          assert ([k0, k1] + rest)[i + 1] == ([k1] + rest)[i];
        }
      }
    }
  }

  /** `deleteImageFromS3`: the delete command for the name, and `true`
      exactly when it was sent without error. */
  function DeleteImageFromS3(fileName: Option<string>, sent: bool): (r: (S3Command, bool))
    ensures r.0.DeleteObject? && r.0.key == ObjectKey(fileName)
    ensures r.1 <==> sent
  {
    (DeleteCommand(fileName), sent)
  }
}
