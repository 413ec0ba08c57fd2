/** The URL handling of the image controller: `extractFilename`, which
    recovers the object name from a stored URL, and `transformImageUrl`,
    which turns the URL the upload returns into the one stored for the
    image. Both are written with regular expressions in the source; here
    each regular expression's first match is spelled out. */
module ImageController {
  import opened Wrappers
  import opened Strings

  // ---------------------------------------------------------------------
  // extractFilename
  // ---------------------------------------------------------------------

  /** `extractFilename`: the match of `/[^/]+$/`, that is the longest
      non-empty run of characters other than '/' that ends the URL; `None`
      (null) when the URL is empty or ends in '/'. */
  function ExtractFilename(url: string): (r: Option<string>)
    ensures r.None? <==> |url| == 0 || url[|url| - 1] == '/'
    ensures r.Some? ==> |r.value| >= 1 && '/' !in r.value && |r.value| <= |url|
                        && url[|url| - |r.value|..] == r.value
                        && (|r.value| == |url| || url[|url| - |r.value| - 1] == '/')
  {
    var tail := AfterLast(url, '/');
    AfterLastSuffix(url, '/');
    if |tail| == 0 then None else Some(tail)
  }

  /** A slash-free, non-empty name after a prefix that ends in '/' is what
      `extractFilename` gives back. */
  lemma ExtractAfterSlash(prefix: string, name: string)
    requires |prefix| >= 1 && prefix[|prefix| - 1] == '/'
    requires |name| >= 1 && '/' !in name
    ensures ExtractFilename(prefix + name) == Some(name)
  {
    var url := prefix + name;
    LastIndexOfUnique(url, '/', |prefix| - 1);
    assert url[|prefix|..] == name;
  }

  // ---------------------------------------------------------------------
  // The ext query parameter
  // ---------------------------------------------------------------------

  /** `k` is where the value of an `ext` parameter starts in the query text
      `q`: "ext=" ends at `k` and either begins `q` or follows a '&'. */
  predicate ExtValueAt(q: string, k: nat) {
    4 <= k <= |q| && q[k - 4..k] == "ext=" && (k == 4 || q[k - 5] == '&')
  }

  /** `k` is the first such start. The regular expression
      `(?:^|&)ext=([^&]*)` tries match positions from the left; the match at
      position 0 by `^` has its value at 4, the one by `&` at 5 (the two
      exclude each other), and a match at position `p > 0` has its value at
      `p + 5`, so the leftmost match is the one with the smallest value
      start. */
  predicate FirstExtValue(q: string, k: nat) {
    ExtValueAt(q, k) && forall j: nat :: j < k ==> !ExtValueAt(q, j)
  }

  /** `v` is the whole run `[^&]*` that starts at `k`. */
  predicate ValueRunAt(q: string, k: nat, v: string) {
    k + |v| <= |q| && q[k..k + |v|] == v && '&' !in v && (k + |v| == |q| || q[k + |v|] == '&')
  }

  /** The run at `k` is unique: it stops at the first '&'. */
  lemma RunUnique(q: string, k: nat, v: string, w: string)
    requires ValueRunAt(q, k, v) && ValueRunAt(q, k, w)
    ensures v == w
  {
    assert forall m | 0 <= m < |v| :: v[m] == q[k..k + |v|][m] == q[k + m];
    assert forall m | 0 <= m < |w| :: w[m] == q[k..k + |w|][m] == q[k + m];
  }

  /** The smallest value start at or after `k`. */
  function FindExtValue(q: string, k: nat): (r: Option<nat>)
    decreases |q| + 1 - k
    ensures r.Some? ==> k <= r.value && ExtValueAt(q, r.value)
    ensures forall j: nat :: k <= j && (r.None? || j < r.value) ==> !ExtValueAt(q, j)
  {
    if k > |q| then None
    else if ExtValueAt(q, k) then Some(k)
    else FindExtValue(q, k + 1)
  }

  /** The run of characters other than '&' that starts at `k`. */
  function RunFrom(q: string, k: nat): (v: string)
    requires k <= |q|
    ensures ValueRunAt(q, k, v)
  {
    match FirstIndexOf(q[k..], '&')
    case None => q[k..]
    case Some(i) =>
      assert q[k..][..i] == q[k..k + i];
      q[k..k + i]
  }

  /** The captured value of the first match of `(?:^|&)ext=([^&]*)` in the
      query text `q`, or `None` when there is no match. The value may be
      empty. */
  function ExtInQuery(q: string): (r: Option<string>)
    ensures r.None? <==> forall k: nat :: !ExtValueAt(q, k)
    ensures r.Some? ==> exists k: nat :: FirstExtValue(q, k) && ValueRunAt(q, k, r.value)
  {
    match FindExtValue(q, 0)
    case None => None
    case Some(k) =>
      assert FirstExtValue(q, k);
      Some(RunFrom(q, k))
  }

  /** `url.split("?")[1]`: the text between the first '?' and the next one
      (or the end); `None` when there is no '?'. */
  function QueryText(url: string): (r: Option<string>)
    ensures r.None? <==> '?' !in url
    ensures r.Some? ==> '?' !in r.value
    ensures r.Some? ==> FirstIndexOf(url, '?').Some?
                        && r.value == Split(url[FirstIndexOf(url, '?').value + 1..], '?')[0]
  {
    var parts := Split(url, '?');
    if |parts| < 2 then
      SplitHead(url, '?');
      None
    else
      SplitSecond(url, '?');
      var i := FirstIndexOf(url, '?').value;
      SplitHead(url[i + 1..], '?');
      Some(parts[1])
  }

  /** The `ext` the controller reads from a URL: `None` (null) when there
      is no query text, when it is empty (and so falsy), or when it has no
      `ext` parameter. */
  function ExtParam(url: string): (r: Option<string>)
    ensures r == if QueryText(url).Some? then ExtInQuery(QueryText(url).value) else None
  {
    match QueryText(url)
    case None => None
    case Some(q) => if |q| == 0 then None else ExtInQuery(q)
  }

  // ---------------------------------------------------------------------
  // The extension and transformImageUrl
  // ---------------------------------------------------------------------

  /** The match of `/\.[^/.]+$/` at `j`: a '.' followed by one or more
      characters, none of them '.' or '/', up to the end. */
  predicate ExtensionAt(s: string, j: nat) {
    j + 1 < |s| && s[j] == '.' && forall m | j < m < |s| :: s[m] != '.' && s[m] != '/'
  }

  /** A match of the extension pattern starts at the last '.'. */
  lemma ExtensionAtLastDot(s: string, j: nat)
    requires ExtensionAt(s, j)
    ensures LastIndexOf(s, '.') == Some(j)
  {
    var t := s[j + 1..];
    assert forall m | 0 <= m < |t| :: t[m] == s[j + 1 + m];
    assert '.' !in t;
    LastIndexOfUnique(s, '.', j);
  }

  /** Where `/\.[^/.]+$/` matches, if anywhere; there is at most one such
      place, the last '.'. */
  function ExtensionDot(s: string): (r: Option<nat>)
    ensures r.Some? ==> ExtensionAt(s, r.value)
    ensures forall j: nat :: ExtensionAt(s, j) ==> r == Some(j)
  {
    match LastIndexOf(s, '.')
    case None => None
    case Some(j) =>
      if j + 1 < |s| && '/' !in s[j + 1..] then
        assert forall m | j < m < |s| :: s[m] in s[j + 1..];
        Some(j)
      else
        forall j': nat | ExtensionAt(s, j') ensures LastIndexOf(s, '.') == Some(j') {
          ExtensionAtLastDot(s, j');
        }
        None
  }

  /** `s.replace(/\.[^/.]+$/, "." + ext)`: the extension, dot included, is
      replaced by "." and `ext` (with the `$` patterns of a replacement
      string expanded); without an extension `s` is returned unchanged. */
  function ReplaceExtension(s: string, ext: string): (r: string)
    ensures (forall j: nat :: !ExtensionAt(s, j)) ==> r == s
    ensures forall j: nat :: ExtensionAt(s, j) && '$' !in ext ==> r == s[..j] + "." + ext
  {
    match ExtensionDot(s)
    case None => s
    case Some(j) =>
      assert '$' !in ext ==> Substitute("." + ext, s[..j], s[j..], "") == "." + ext by {
        if '$' !in ext {
          assert '$' !in "." + ext;
          SubstituteLiteral("." + ext, s[..j], s[j..], "");
        }
      }
      s[..j] + Substitute("." + ext, s[..j], s[j..], "")
  }

  /** The text `${ext}` renders: the value, or "null". */
  function ExtText(ext: Option<string>): string
  {
    match ext
    case None => "null"
    case Some(e) => e
  }

  /** `transformImageUrl`: the URL up to its first '?', with its extension
      replaced by the `ext` parameter's value. */
  function TransformImageUrl(url: string): (r: string)
  {
    ReplaceExtension(Split(url, '?')[0], ExtText(ExtParam(url)))
  }

  /** The `ext` value is a piece of the query text, so it holds no
      character the query text lacks. */
  lemma ExtValueChars(q: string, c: char)
    requires c !in q
    ensures ExtInQuery(q).Some? ==> c !in ExtInQuery(q).value
  {
    match ExtInQuery(q)
    case None =>
    case Some(v) =>
      var k: nat :| FirstExtValue(q, k) && ValueRunAt(q, k, v);
      SliceAvoids(q, k, k + |v|, c);
  }

  /** A slice holds no character its sequence lacks. */
  lemma SliceAvoids(q: string, a: nat, b: nat, c: char)
    requires a <= b <= |q| && c !in q
    ensures c !in q[a..b]
  {
    forall m | 0 <= m < b - a
      ensures q[a..b][m] != c
    {
      assert q[a..b][m] == q[a + m];
    }
  }

  /** Neither the `ext` text nor the "null" that stands in for a missing
      one holds a '?'. */
  lemma ExtTextNoQuestionMark(url: string)
    ensures '?' !in ExtText(ExtParam(url))
  {
    match QueryText(url)
    case None =>
    case Some(q) =>
      ExtValueChars(q, '?');
  }

  /** The text before the first `c` holds no `c`. */
  lemma SplitHeadFree(s: string, c: char)
    ensures c !in Split(s, c)[0]
    ensures s[..|Split(s, c)[0]|] == Split(s, c)[0]
  {
    SplitHead(s, c);
  }

  /** Replacing the extension adds only the characters of ".", `ext` and
      the subject (through the `$` patterns). */
  lemma ReplaceExtensionChars(s: string, ext: string, c: char)
    requires c != '$' && c != '.' && c !in s && c !in ext
    ensures c !in ReplaceExtension(s, ext)
  {
    match ExtensionDot(s)
    case None =>
    case Some(j) =>
      assert forall m | 0 <= m < j :: s[..j][m] == s[m];
      assert forall m | 0 <= m < |s| - j :: s[j..][m] == s[j + m];
      assert c !in "." + ext;
      SubstituteChars("." + ext, s[..j], s[j..], "", c);
  }

  /** `transformImageUrl` drops everything from the first '?' on: its
      result holds no '?'. */
  lemma TransformDropsQuery(url: string)
    ensures '?' !in TransformImageUrl(url)
  {
    SplitHeadFree(url, '?');
    ExtTextNoQuestionMark(url);
    ReplaceExtensionChars(Split(url, '?')[0], ExtText(ExtParam(url)), '?');
  }

  /** Replacing the extension never touches the text up to the last '/':
      a prefix of `s` that ends in '/' is kept. */
  lemma ReplaceExtensionKeepsDirectory(s: string, ext: string, prefix: string)
    requires |prefix| >= 1 && prefix[|prefix| - 1] == '/' && prefix <= s
    ensures prefix <= ReplaceExtension(s, ext)
  {
    match ExtensionDot(s)
    case None =>
    case Some(j) =>
      assert s[|prefix| - 1] == '/';
      assert j >= |prefix|;
      assert prefix <= s[..j];
  }

  /** A URL that starts with a '?'-free directory prefix ending in '/' keeps
      it through `transformImageUrl`. */
  lemma TransformKeepsDirectory(url: string, prefix: string)
    requires |prefix| >= 1 && prefix[|prefix| - 1] == '/' && '?' !in prefix && prefix <= url
    ensures prefix <= TransformImageUrl(url)
  {
    var base := Split(url, '?')[0];
    SplitHead(url, '?');
    match FirstIndexOf(url, '?')
    case None =>
    case Some(i) =>
      assert forall m | 0 <= m < |prefix| :: url[m] == prefix[m];
      assert url[i] == '?';
      assert base == url[..i];
      assert prefix <= base;
    ReplaceExtensionKeepsDirectory(base, ExtText(ExtParam(url)), prefix);
  }

  /** A URL with one '?' and a non-empty query: the path's extension is
      replaced by the query's `ext` value, or by "null" when it has none. */
  lemma TransformWithQuery(path: string, q: string)
    requires '?' !in path && '?' !in q && |q| > 0
    ensures TransformImageUrl(path + "?" + q) == ReplaceExtension(path, ExtText(ExtInQuery(q)))
  {
    var url := path + "?" + q;
    SplitAtFirst(path, q, '?');
    SplitNone(q, '?');
    assert Split(url, '?') == [path, q];
  }

  /** A URL without '?': the extension becomes ".null". */
  lemma TransformWithoutQuery(path: string)
    requires '?' !in path
    ensures TransformImageUrl(path) == ReplaceExtension(path, "null")
  {
    SplitNone(path, '?');
  }

  /** A query that starts with `ext=<e>&` (as the one `addQuery` writes
      does) has `e` as its `ext`. */
  lemma ExtAtStart(e: string, rest: string)
    requires '&' !in e
    ensures ExtInQuery("ext=" + e + "&" + rest) == Some(e)
  {
    var q := "ext=" + e + "&" + rest;
    assert q[..4] == "ext=";
    assert ExtValueAt(q, 4);
    assert FindExtValue(q, 0) == Some(4);
    assert q[4..4 + |e|] == e && q[4 + |e|] == '&';
    RunUnique(q, 4, RunFrom(q, 4), e);
  }

  /** An `ext` parameter after a '&' is found. */
  lemma ExtAfterAmpersand()
    ensures ExtInQuery("size=1&ext=webp") == Some("webp")
  {
    var q := "size=1&ext=webp";
    assert ExtValueAt(q, 11);
    forall k: nat | 4 <= k < 11 ensures !ExtValueAt(q, k) {
      assert q[k - 4..k][0] == q[k - 4] && q[k - 4..k][1] == q[k - 3];
    }
    assert FindExtValue(q, 0) == Some(11);
  }

  /** "ext=" inside another parameter name does not count. */
  lemma ExtInsideName()
    ensures ExtInQuery("text=png") == None
  {
    var q := "text=png";
    assert |q| == 8 && q[0] == 't' && q[2] == 'x' && q[3] == 't' && q[4] == '=';
    forall k: nat ensures !ExtValueAt(q, k) {
      if 4 <= k <= 8 {
        assert q[k - 4..k][0] == q[k - 4];
      }
    }
  }

  /** The value may be empty. */
  lemma ExtEmpty()
    ensures ExtInQuery("ext=") == Some("")
  {
    assert ExtValueAt("ext=", 4);
  }
}
