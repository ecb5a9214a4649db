/**
 * The metadata that `R2Client.upload_file` (server/utils/r2_client.py:41-114)
 * derives for an uploaded file: its extension, the unique name it is stored
 * under, the object key, the content type and the public URL.
 *
 * The upload itself is external: whether it succeeds is a parameter, and a
 * failure (an exception from the storage client) gives no record.  The UUID is
 * a parameter too.  `os.path` is taken to be POSIX paths.
 */
module R2Client {
  import opened PyStr
  import opened Wrappers

  /** `s.lstrip(c)` for a single character `c`. */
  function LStripChar(s: string, c: char): (r: string)
    ensures |r| <= |s| && r == s[|s| - |r|..]
    ensures forall i :: 0 <= i < |s| - |r| ==> s[i] == c
    ensures r == [] || r[0] != c
  {
    if s != [] && s[0] == c then LStripChar(s[1..], c) else s
  }

  /** `s.rstrip(c)` for a single character `c`. */
  function RStripChar(s: string, c: char): (r: string)
    ensures |r| <= |s| && r == s[..|r|]
    ensures forall i :: |r| <= i < |s| ==> s[i] == c
    ensures r == [] || r[|r| - 1] != c
  {
    if s != [] && s[|s| - 1] == c then RStripChar(s[..|s| - 1], c) else s
  }

  /** `posixpath.splitext(p)`: the suffix starts at the last '.' after the last
      '/', provided some character before that '.' in the last path component is
      not a dot; otherwise there is no suffix. */
  function SplitExt(p: string): (r: (string, string))
    ensures r.0 + r.1 == p
    ensures r.1 != [] ==> r.1[0] == '.' && '.' !in r.1[1..] && '/' !in r.1
    ensures r.1 != [] ==> exists i :: 0 <= i < |r.0| && r.0[i] != '.' && '/' !in r.0[i..]
  {
    var sep := RFind(p, '/');
    var dot := RFind(p, '.');
    if dot > sep && exists i :: sep + 1 <= i < dot && p[i] != '.' then
      var i :| sep + 1 <= i < dot && p[i] != '.';
      assert '/' !in p[..dot][i..] by {
        forall j | 0 <= j < |p[..dot][i..]| ensures p[..dot][i..][j] != '/' {
          assert p[..dot][i..][j] == p[i + j];
        }
      }
      (p[..dot], p[dot..])
    else (p, "")
  }

  /** No ASCII capital in `s`. */
  predicate NoUpper(s: string) {
    forall i :: 0 <= i < |s| ==> !('A' <= s[i] <= 'Z')
  }

  /** `ext.lstrip('.').lower()` applied to the suffix of `splitext`
      (lines 57-58). */
  function Extension(fileName: string): (ext: string)
    ensures '.' !in ext && '/' !in ext && NoUpper(ext)
    ensures SplitExt(fileName).1 == [] ==> ext == []
    ensures SplitExt(fileName).1 != [] ==> ext == Lower(SplitExt(fileName).1[1..])
  {
    var suffix := SplitExt(fileName).1;
    var bare := LStripChar(suffix, '.');
    BareSuffix(suffix);
    LowerKeepsMarks(bare);
    Lower(bare)
  }

  /** A `splitext` suffix loses exactly its one leading dot to `lstrip('.')`. */
  lemma BareSuffix(suffix: string)
    requires suffix != [] ==> suffix[0] == '.' && '.' !in suffix[1..] && '/' !in suffix
    ensures suffix == [] ==> LStripChar(suffix, '.') == []
    ensures suffix != [] ==> LStripChar(suffix, '.') == suffix[1..]
    ensures '.' !in LStripChar(suffix, '.') && '/' !in LStripChar(suffix, '.')
  {
    if suffix != [] {
      var rest := suffix[1..];
      assert suffix == [suffix[0]] + rest;
      assert LStripChar(suffix, '.') == LStripChar(rest, '.');
      if rest != [] {
        assert rest[0] in rest;
      }
      assert LStripChar(rest, '.') == rest;
    }
  }

  /** Lowering a string leaves no capital and keeps '.' and '/' out. */
  lemma LowerKeepsMarks(s: string)
    requires '.' !in s && '/' !in s
    ensures '.' !in Lower(s) && '/' !in Lower(s) && NoUpper(Lower(s))
  {
    var r := Lower(s);
    forall i | 0 <= i < |r| ensures r[i] != '.' && r[i] != '/' {
      assert s[i] in s;
    }
  }

  /** `f"{uuid}.{ext}"` (line 61): the dot is there even when `ext` is empty. */
  function StoredName(uuid: string, ext: string): (name: string)
    ensures |name| == |uuid| + 1 + |ext|
    ensures name[..|uuid|] == uuid && name[|uuid|] == '.' && name[|uuid| + 1..] == ext
  {
    uuid + "." + ext
  }

  /** `f"{folder}/{unique_filename}"` (line 64). */
  function ObjectKey(folder: string, name: string): (key: string)
    ensures |key| == |folder| + 1 + |name|
    ensures key[..|folder|] == folder && key[|folder|] == '/'
    ensures '/' !in name ==> Drop(key, RFind(key, '/') + 1) == name
  {
    var k := folder + "/" + name;
    if '/' !in name then
      assert forall j :: |folder| < j < |k| ==> k[j] == name[j - |folder| - 1];
      RFindAt(k, '/', |folder|);
      assert k[|folder| + 1..] == name;
      k
    else k
  }

  /** The table of lines 67-84. */
  const ContentTypes: map<string, string> := map[
    "jpg" := "image/jpeg",
    "jpeg" := "image/jpeg",
    "png" := "image/png",
    "gif" := "image/gif",
    "webp" := "image/webp",
    "svg" := "image/svg+xml",
    "pdf" := "application/pdf",
    "mp3" := "audio/mpeg",
    "wav" := "audio/wav",
    "m4a" := "audio/mp4",
    "ogg" := "audio/ogg",
    "aac" := "audio/aac",
    "flac" := "audio/flac",
    "mp4" := "video/mp4",
    "pptx" := "application/vnd.openxmlformats-officedocument.presentationml.presentation",
    "ppt" := "application/vnd.ms-powerpoint"
  ]

  const DefaultContentType: string := "application/octet-stream"

  /** The default `folder` of `upload_file` (line 41). */
  const DefaultFolder: string := "storyboard"

  /** `content_type_map.get(ext, "application/octet-stream")` (line 86). */
  function ContentType(ext: string): (ct: string)
    ensures ext in ContentTypes ==> ct == ContentTypes[ext]
    ensures ext !in ContentTypes ==> ct == DefaultContentType
  {
    if ext in ContentTypes then ContentTypes[ext] else DefaultContentType
  }

  /** `f"{base_url.rstrip('/')}/{r2_key}"` (lines 104-105). */
  function PublicUrl(baseUrl: string, key: string): (url: string)
    ensures url == RStripChar(baseUrl, '/') + "/" + key
    ensures |url| > |key| && url[|url| - |key| - 1..] == "/" + key
    ensures |url| > |key| + 1 ==> url[|url| - |key| - 2] != '/'
    ensures baseUrl == [] || baseUrl[|baseUrl| - 1] != '/' ==> url == baseUrl + "/" + key
  {
    var base := RStripChar(baseUrl, '/');
    assert (base + "/" + key)[|base| + 1..] == key;
    base + "/" + key
  }

  /** The dictionary returned at lines 107-114. */
  datatype UploadRecord = UploadRecord(
    url: string,
    filename: string,
    originalFilename: string,
    contentType: string,
    size: nat,
    path: string)

  /** `upload_file(file_bytes, file_name, folder)`.  `fileSize` is the length of
      the buffer (line 54), `uuid` the generated UUID, `uploaded` whether the
      storage call of lines 92-100 returned, and `baseUrl` the `R2_BASEURL`
      setting (missing makes line 104 raise). */
  function UploadFile(fileSize: nat, fileName: string, folder: string, uuid: string, uploaded: bool, baseUrl: Option<string>)
    : (r: Option<UploadRecord>)
    ensures r.Some? <==> uploaded && baseUrl.Some?
    ensures r.Some? ==> r.value.filename == StoredName(uuid, Extension(fileName))
    ensures r.Some? ==> r.value.path == folder + "/" + r.value.filename
    ensures r.Some? ==> r.value.url == RStripChar(baseUrl.value, '/') + "/" + r.value.path
    ensures r.Some? ==> r.value.contentType == ContentType(Extension(fileName))
    ensures r.Some? ==> r.value.originalFilename == fileName && r.value.size == fileSize
  {
    var ext := Extension(fileName);
    var name := StoredName(uuid, ext);
    var key := ObjectKey(folder, name);
    var contentType := ContentType(ext);
    if !uploaded || baseUrl.None? then None
    else Some(UploadRecord(PublicUrl(baseUrl.value, key), name, fileName, contentType, fileSize, key))
  }

  // ----------------------------------------------------------------- lemmas

  lemma LowerUnchanged(s: string)
    requires NoUpper(s)
    ensures Lower(s) == s
  {
  }

  /** `dir` is empty or ends in '/': what precedes the last path component. */
  predicate IsDir(dir: string) {
    dir == [] || dir[|dir| - 1] == '/'
  }

  /** Some character of `base` is not a dot. */
  predicate NotAllDots(base: string) {
    exists i :: 0 <= i < |base| && base[i] != '.'
  }

  /** The last '/' of `dir + rest` is the last one of `dir` when `rest` has
      none. */
  lemma LastSlash(dir: string, rest: string)
    requires IsDir(dir) && '/' !in rest
    ensures RFind(dir + rest, '/') == |dir| - 1
  {
    var p := dir + rest;
    forall j | |dir| <= j < |p| ensures p[j] != '/' {
      assert p[j] == rest[j - |dir|];
    }
    if dir != [] {
      RFindAt(p, '/', |dir| - 1);
    } else {
      assert p == rest;
      RFindNone(p, '/');
    }
  }

  /** Every file name whose last component has a dot is `dir + base + "." +
      ext`, with `ext` free of dots.  It splits at that dot exactly when
      `base` is not all dots ("a.png", ".env.local", "dir/a.b.PNG"); when it
      is ("" as in ".bashrc", or ".." as in "..."), there is no suffix. */
  lemma SplitLastDot(dir: string, base: string, ext: string)
    requires IsDir(dir) && '/' !in base
    requires '.' !in ext && '/' !in ext
    ensures NotAllDots(base) ==> SplitExt(dir + base + "." + ext) == (dir + base, "." + ext)
    ensures !NotAllDots(base) ==> SplitExt(dir + base + "." + ext) == (dir + base + "." + ext, "")
  {
    var p := dir + base + "." + ext;
    var d := |dir| + |base|;
    LastComponentMarks(dir, base, ext);
    DotsInComponent(dir, base, ext);
    SplitAtDot(p, |dir| - 1, d);
    assert p[..d] == dir + base;
    assert p[d..] == "." + ext;
  }

  /** `splitext` once the last '/' and the last '.' are known. */
  lemma SplitAtDot(p: string, sep: int, d: nat)
    requires RFind(p, '/') == sep && RFind(p, '.') == d && sep < d
    ensures (exists i :: sep + 1 <= i < d && p[i] != '.') ==> SplitExt(p) == (p[..d], p[d..])
    ensures (forall i :: sep + 1 <= i < d ==> p[i] == '.') ==> SplitExt(p) == (p, "")
  {
  }

  lemma LastComponentMarks(dir: string, base: string, ext: string)
    requires IsDir(dir) && '/' !in base
    requires '.' !in ext && '/' !in ext
    ensures RFind(dir + base + "." + ext, '/') == |dir| - 1
    ensures RFind(dir + base + "." + ext, '.') == |dir| + |base|
  {
    var rest := base + "." + ext;
    Regroup(dir, base, ".", ext);
    NoSlashAround(base, ext);
    LastSlash(dir, rest);
    LastDot(dir + base, ext);
  }

  lemma Regroup<T>(a: seq<T>, b: seq<T>, c: seq<T>, d: seq<T>)
    ensures a + b + c + d == a + (b + c + d)
  {
    assert a + b + c == a + (b + c);
  }

  lemma NoSlashAround(base: string, ext: string)
    requires '/' !in base && '/' !in ext
    ensures '/' !in base + "." + ext
  {
    var rest := base + "." + ext;
    forall j | 0 <= j < |rest| ensures rest[j] != '/' {
      if j < |base| {
        assert rest[j] == base[j];
      } else if j > |base| {
        assert rest[j] == ext[j - |base| - 1];
      }
    }
  }

  lemma LastDot(front: string, ext: string)
    requires '.' !in ext
    ensures RFind(front + "." + ext, '.') == |front|
  {
    var q := front + ".";
    assert (q + ext)[|front|] == q[|front|] == '.';
    NoneAfter(q, ext, '.');
    RFindAt(q + ext, '.', |front|);
  }

  lemma NoneAfter(q: string, ext: string, c: char)
    requires c !in ext
    ensures forall j :: |q| <= j < |q + ext| ==> (q + ext)[j] != c
  {
    forall j | |q| <= j < |q + ext| ensures (q + ext)[j] != c {
      assert (q + ext)[j] == ext[j - |q|];
    }
  }

  lemma DotsInComponent(dir: string, base: string, ext: string)
    ensures var p := dir + base + "." + ext;
            NotAllDots(base) <==> exists i :: |dir| <= i < |dir| + |base| && p[i] != '.'
  {
    var p := dir + base + "." + ext;
    assert forall i :: |dir| <= i < |dir| + |base| ==> p[i] == base[i - |dir|];
    if NotAllDots(base) {
      var i :| 0 <= i < |base| && base[i] != '.';
      assert p[|dir| + i] != '.';
    }
  }

  /** A last component without a dot has no suffix. */
  lemma SplitNoDot(dir: string, base: string)
    requires IsDir(dir) && '/' !in base && '.' !in base
    ensures SplitExt(dir + base) == (dir + base, "")
  {
    var p := dir + base;
    LastSlash(dir, base);
    forall j | |dir| <= j < |p| ensures p[j] != '.' {
      assert p[j] == base[j - |dir|];
    }
  }

  /** The extension of `dir + base + "." + ext` is `ext` lowered when `base`
      is not all dots, and empty otherwise. */
  lemma ExtensionAfterLastDot(dir: string, base: string, ext: string)
    requires IsDir(dir) && '/' !in base
    requires '.' !in ext && '/' !in ext
    ensures NotAllDots(base) ==> Extension(dir + base + "." + ext) == Lower(ext)
    ensures !NotAllDots(base) ==> Extension(dir + base + "." + ext) == ""
  {
    SplitLastDot(dir, base, ext);
    assert LStripChar("." + ext, '.') == ext by {
      assert ("." + ext)[1..] == ext;
      if ext != [] {
        assert ext[0] in ext;
      }
    }
  }

  /** A UUID has no '.' or '/', so splitting the stored name gives back the
      UUID and the extension. */
  lemma SplitStoredName(uuid: string, ext: string)
    requires uuid != [] && '.' !in uuid && '/' !in uuid
    requires '.' !in ext && '/' !in ext
    ensures SplitExt(StoredName(uuid, ext)) == (uuid, "." + ext)
  {
    assert NotAllDots(uuid) by { assert uuid[0] in uuid; }
    assert "" + uuid == uuid;
    SplitLastDot("", uuid, ext);
  }

  /** The stored name has the extension of the original file name: the
      extension survives the renaming. */
  lemma StoredNameKeepsExtension(uuid: string, fileName: string)
    requires uuid != [] && '.' !in uuid && '/' !in uuid
    ensures Extension(StoredName(uuid, Extension(fileName))) == Extension(fileName)
  {
    var ext := Extension(fileName);
    SplitStoredName(uuid, ext);
    assert LStripChar("." + ext, '.') == ext by {
      assert ("." + ext)[1..] == ext;
      if ext != [] {
        assert ext[0] in ext;
      }
    }
    LowerUnchanged(ext);
  }

  /** The object key ends in the stored name, after the folder and a '/':
      the UUID has no '/', and neither has any extension. */
  lemma KeyEndsInStoredName(folder: string, uuid: string, ext: string)
    requires '/' !in uuid && '/' !in ext
    ensures var name := StoredName(uuid, ext);
            Drop(ObjectKey(folder, name), RFind(ObjectKey(folder, name), '/') + 1) == name
  {
    var name := StoredName(uuid, ext);
    forall j | 0 <= j < |name| ensures name[j] != '/' {
      if j < |uuid| {
        assert name[j] == uuid[j];
        assert uuid[j] in uuid;
      } else if j > |uuid| {
        assert name[j] == ext[j - |uuid| - 1];
        assert ext[j - |uuid| - 1] in ext;
      }
    }
  }

  /** A last component without a dot gives no extension. */
  lemma NoDotNoExtension(dir: string, base: string)
    requires IsDir(dir) && '/' !in base && '.' !in base
    ensures Extension(dir + base) == ""
  {
    SplitNoDot(dir, base);
  }

  /** A last component that is only dots before its last dot, such as
      ".bashrc" or "...", gives no extension either. */
  lemma HiddenFileNoExtension(dir: string, dots: string, ext: string)
    requires IsDir(dir) && forall i :: 0 <= i < |dots| ==> dots[i] == '.'
    requires '.' !in ext && '/' !in ext
    ensures Extension(dir + dots + "." + ext) == ""
  {
    assert '/' !in dots by {
      forall i | 0 <= i < |dots| ensures dots[i] != '/' {
      }
    }
    ExtensionAfterLastDot(dir, dots, ext);
  }

  /** "photo.JPG" has the extension "jpg", which names a JPEG image. */
  lemma PhotoExtension()
    ensures Extension("photo.JPG") == "jpg"
    ensures ContentType(Extension("photo.JPG")) == "image/jpeg"
  {
    PhotoLowered();
    JpegType();
  }

  lemma PhotoLowered()
    ensures Extension("photo.JPG") == "jpg"
  {
    assert "photo.JPG" == "" + "photo" + "." + "JPG";
    assert "photo"[0] != '.';
    ExtensionAfterLastDot("", "photo", "JPG");
    LowerJpg();
  }

  lemma LowerJpg()
    ensures Lower("JPG") == "jpg"
  {
    var r := Lower("JPG");
    assert r[0] == 'j' && r[1] == 'p' && r[2] == 'g';
  }

  lemma JpegType()
    ensures ContentType("jpg") == "image/jpeg"
  {
  }

  /** Only the last suffix counts: "archive.tar.gz" has the extension "gz". */
  lemma LastSuffixExtension()
    ensures Extension("archive.tar.gz") == "gz"
  {
    assert "archive.tar.gz" == "" + "archive.tar" + "." + "gz";
    assert "archive.tar"[0] != '.';
    ExtensionAfterLastDot("", "archive.tar", "gz");
    LowerGz();
  }

  lemma LowerGz()
    ensures Lower("gz") == "gz"
  {
    var r := Lower("gz");
    assert r[0] == 'g' && r[1] == 'z';
  }

  /** A name ending in a dot has an empty extension, and its stored name
      still ends in a dot. */
  lemma TrailingDotExtension(uuid: string)
    ensures Extension("notes.") == ""
    ensures StoredName(uuid, Extension("notes.")) == uuid + "."
  {
    RFindNone("notes.", '/');
    RFindAt("notes.", '.', 5);
    assert "notes."[0] != '.';
    assert SplitExt("notes.").1 == ".";
  }
}
