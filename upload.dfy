/** The upload route: receive one multipart file under a size limit, accept
    it only when its declared MIME type starts like an image or a video, store
    it under a fresh UUID plus the client file name's extension, and answer
    the URL it is served from. */
module Upload {
  import opened Schema

  /** The per-file size limit handed to the multipart parser: 5 MiB. */
  const FileSizeLimit: nat := 5_242_880

  /** The file part as the multipart parser hands it over (the byte stream
      itself is not modelled). */
  datatype FilePart = FilePart(filename: string, mimetype: string)

  /** `BadRequest` is the 400 reply; `Stored` means the file was written
      under `fileName` and `fileUrl` was answered. */
  datatype UploadReply = BadRequest | Stored(fileName: string, fileUrl: string)

  // ---------------------------------------------------------------------------
  // MIME type

  predicate IsAsciiLetter(c: char) {
    'a' <= c <= 'z' || 'A' <= c <= 'Z'
  }

  /** The words of the pattern `(image|video)/[a-zA-Z]+`. */
  ghost predicate InMimePattern(w: string) {
    && |w| > 6
    && (w[..6] == "image/" || w[..6] == "video/")
    && forall i :: 6 <= i < |w| ==> IsAsciiLetter(w[i])
  }

  /** The test of `/^(image|video)\/[a-zA-Z]+/`: anchored at the start only,
      so one letter after the slash is enough and anything may follow it. */
  function AcceptsMimeType(m: string): (r: bool)
    ensures r ==> |m| > 6 && InMimePattern(m[..7])
  {
    assert |m| > 6 ==> m[..7][..6] == m[..6];
    |m| > 6 && (m[..6] == "image/" || m[..6] == "video/") && IsAsciiLetter(m[6])
  }

  /** A MIME type is accepted exactly when some prefix of it is a word of the
      pattern: the regular expression's meaning without an end anchor. */
  lemma AcceptsMimeTypeMeansPrefixMatch(m: string)
    ensures AcceptsMimeType(m) <==> exists k :: 0 <= k <= |m| && InMimePattern(m[..k])
  {
    if AcceptsMimeType(m) {
      assert m[..7][..6] == m[..6];
      assert InMimePattern(m[..7]);
    }
    if exists k :: 0 <= k <= |m| && InMimePattern(m[..k]) {
      var k :| 0 <= k <= |m| && InMimePattern(m[..k]);
      assert m[..k][..6] == m[..6];
      assert m[..k][6] == m[6];
    }
  }

  /** The cases the route is meant for and the ones it turns away. */
  lemma MimeTypeExamples()
    ensures AcceptsMimeType("image/png") && AcceptsMimeType("video/mp4")
    ensures AcceptsMimeType("image/svg+xml")
    ensures !AcceptsMimeType("application/pdf")
    ensures !AcceptsMimeType("image/") && !AcceptsMimeType("image/1png")
  {
    assert "application/pdf"[0] == 'a' && "image/"[0] == 'i';
  }

  // ---------------------------------------------------------------------------
  // File name

  /** One past the last character of `p` that is not '/', or 0 when there is none. */
  function TrimmedEnd(p: string): (e: nat)
    ensures e <= |p|
    ensures e > 0 ==> p[e - 1] != '/'
    ensures forall i :: e <= i < |p| ==> p[i] == '/'
  {
    if p == [] then 0
    else if p[|p| - 1] == '/' then TrimmedEnd(p[..|p| - 1])
    else |p|
  }

  /** The index of the last `c` in `s`, or -1 when `s` has none. */
  function LastIndexOf(s: string, c: char): (r: int)
    ensures -1 <= r < |s|
    ensures r >= 0 ==> s[r] == c
    ensures forall i :: r < i < |s| ==> s[i] != c
  {
    if s == [] then -1
    else if s[|s| - 1] == c then |s| - 1
    else LastIndexOf(s[..|s| - 1], c)
  }

  /** Where the last path component of `p` starts, trailing separators ignored. */
  function ComponentStart(p: string): (s: nat)
    ensures s <= TrimmedEnd(p)
    ensures s == 0 || p[s - 1] == '/'
    ensures forall i :: s <= i < TrimmedEnd(p) ==> p[i] != '/'
  {
    var e := TrimmedEnd(p);
    var s := LastIndexOf(p[..e], '/') + 1;
    assert s > 0 ==> p[..e][s - 1] == p[s - 1];
    assert forall i :: s <= i < e ==> p[..e][i] == p[i];
    s
  }

  /** The last path component of `p`: what follows its last separator once
      trailing separators are dropped. */
  function LastComponent(p: string): (c: string)
    ensures '/' !in c
  {
    var s, e := ComponentStart(p), TrimmedEnd(p);
    assert forall k :: 0 <= k < e - s ==> p[s..e][k] == p[s + k];
    p[s..e]
  }

  /** The extension of one path component: from its last dot on, except when
      there is no dot, the dot opens the component, or the component is "..". */
  function ComponentExtension(c: string): (x: string)
    ensures x != [] <==> c != ".." && exists k :: 0 < k < |c| && c[k] == '.'
    ensures x != [] ==>
      exists k :: 0 < k < |c| && x == c[k..] && c[k] == '.' && forall i :: k < i < |c| ==> c[i] != '.'
  {
    var d := LastIndexOf(c, '.');
    if d <= 0 || c == ".." then "" else c[d..]
  }

  /** The extension of a client file name, as the platform's `extname` on
      POSIX paths computes it: the last component's suffix from its last dot,
      present exactly when that dot does not open the component and the
      component is not "..". */
  function Extname(p: string): (x: string)
    ensures var c := LastComponent(p);
      && (x != [] <==> c != ".." && exists k :: 0 < k < |c| && c[k] == '.')
      && (x != [] ==> exists k :: 0 < k < |c| && x == c[k..] && c[k] == '.' && forall i :: k < i < |c| ==> c[i] != '.')
  {
    ComponentExtension(LastComponent(p))
  }

  /** The last occurrence is pinned down by its position and what follows it. */
  lemma LastIndexOfAt(s: string, c: char, r: int)
    requires -1 <= r < |s| && (r >= 0 ==> s[r] == c)
    requires forall i :: r < i < |s| ==> s[i] != c
    ensures LastIndexOf(s, c) == r
  {
  }

  /** `extname` on single components, one per edge rule. */
  lemma ComponentExtensionExamples()
    ensures ComponentExtension("photo.png") == ".png"
    ensures ComponentExtension("b.tar.gz") == ".gz"
    ensures ComponentExtension(".bashrc") == ""
    ensures ComponentExtension("README") == ""
    ensures ComponentExtension("..") == ""
    ensures ComponentExtension("a.") == "."
  {
    LastIndexOfAt("photo.png", '.', 5);
    LastIndexOfAt("b.tar.gz", '.', 5);
    LastIndexOfAt(".bashrc", '.', 0);
    LastIndexOfAt("README", '.', -1);
  }

  /** Only the last dot of the last component counts. */
  lemma NestedNameExample()
    ensures LastComponent("a/b.tar.gz") == "b.tar.gz"
    ensures Extname("a/b.tar.gz") == ".gz"
  {
    var p := "a/b.tar.gz";
    assert TrimmedEnd(p) == 10;
    assert p[..10] == p;
    LastIndexOfAt(p, '/', 1);
    assert p[2..10] == "b.tar.gz";
    ComponentExtensionExamples();
  }

  /** A dot in an earlier component is not an extension. */
  lemma DotInFolderExample()
    ensures Extname("d.x/f") == ""
  {
    var p := "d.x/f";
    assert TrimmedEnd(p) == 5;
    assert p[..5] == p;
    LastIndexOfAt(p, '/', 3);
    assert p[4..5] == "f";
    LastIndexOfAt("f", '.', -1);
  }

  /** Trailing separators are dropped before the extension is taken. */
  lemma TrailingSlashExample()
    ensures Extname("a.t/") == ".t"
  {
    var p := "a.t/";
    assert LastComponent(p) == "a.t" by {
      assert TrimmedEnd(p[..3]) == 3;
      assert TrimmedEnd(p) == 3;
      LastIndexOfAt(p[..3], '/', -1);
      assert p[0..3] == "a.t";
    }
    LastIndexOfAt("a.t", '.', 1);
  }

  /** Within one component, the extension holds no separator and no second dot. */
  lemma ComponentExtensionShape(c: string)
    requires '/' !in c
    ensures var x := ComponentExtension(c);
      x == [] || (x[0] == '.' && '.' !in x[1..] && '/' !in x)
  {
    var x := ComponentExtension(c);
    if x != [] {
      assert forall k :: 0 <= k < |x| ==> x[k] == c[|c| - |x| + k];
      assert forall k :: 0 <= k < |x| - 1 ==> x[1..][k] == x[k + 1];
    }
  }

  /** An extension is empty or a dot followed by no other dot and no path
      separator, and it is the end of the client name itself, trailing
      separators aside. */
  lemma ExtnameShape(p: string)
    ensures var x := Extname(p);
      && (x == [] || (x[0] == '.' && '.' !in x[1..] && '/' !in x))
      && exists i :: 0 <= i <= TrimmedEnd(p) && x == p[i..TrimmedEnd(p)]
  {
    var c, x := LastComponent(p), Extname(p);
    var s, e := ComponentStart(p), TrimmedEnd(p);
    ComponentExtensionShape(c);
    assert c == p[s..e];
    if x == [] {
      assert x == p[e..e];
    } else {
      var k :| 0 < k < |c| && x == c[k..];
      assert x == p[s + k..e];
    }
  }

  /** The stored name: the fresh UUID, then the client name's extension. */
  function StoredFileName(fileId: string, clientName: string): (name: string)
    ensures |name| == |fileId| + |Extname(clientName)|
    ensures name[..|fileId|] == fileId && name[|fileId|..] == Extname(clientName)
  {
    fileId + Extname(clientName)
  }

  /** The stored name starts with the fresh id, holds no path separator, and
      takes nothing from the client name beyond its extension, so the file
      lands directly inside the uploads folder. */
  lemma StoredFileNameShape(fileId: string, clientName: string)
    requires IsUuid(fileId)
    ensures var name := StoredFileName(fileId, clientName);
      && name[..|fileId|] == fileId
      && name[|fileId|..] == Extname(clientName)
      && '/' !in name
  {
    UuidHasNoSlash(fileId);
    ExtnameShape(clientName);
    NoSlashInJoin(fileId, Extname(clientName));
  }

  /** Joining two separator-free strings gives a separator-free string. */
  lemma NoSlashInJoin(a: string, b: string)
    requires '/' !in a && '/' !in b
    ensures '/' !in a + b
  {
    assert forall k :: 0 <= k < |a + b| ==> (a + b)[k] == if k < |a| then a[k] else b[k - |a|];
  }

  // ---------------------------------------------------------------------------
  // URL

  /** `protocol://hostname/uploads/<fileName>`, as the string the URL is built
      from; the URL parser's treatment of `?` and `#` is not modelled. */
  function FileUrl(protocol: string, hostname: string, fileName: string): (url: string)
    ensures |url| == |protocol| + |hostname| + |fileName| + 12
    ensures url[..|protocol|] == protocol
    ensures url[|url| - |fileName|..] == fileName
    ensures url[|url| - |fileName| - 9..|url| - |fileName|] == "/uploads/"
  {
    protocol + "://" + hostname + "/uploads/" + fileName
  }

  /** The answered URL string is "/uploads/" followed by the stored name, and
      everything after its last '/' is exactly that name. */
  lemma FileUrlLastSegment(protocol: string, hostname: string, fileName: string)
    requires '/' !in fileName
    ensures var url := FileUrl(protocol, hostname, fileName);
      && url[..|url| - |fileName|] == protocol + "://" + hostname + "/uploads/"
      && LastIndexOf(url, '/') == |url| - |fileName| - 1
      && url[LastIndexOf(url, '/') + 1..] == fileName
  {
    var url := FileUrl(protocol, hostname, fileName);
    var prefix := protocol + "://" + hostname + "/uploads/";
    assert url == prefix + fileName;
    var slash := |prefix| - 1;
    assert url[slash] == '/';
    assert forall k :: slash < k < |url| ==> url[k] == fileName[k - |prefix|];
    var r := LastIndexOf(url, '/');
    assert r >= slash;
  }

  // ---------------------------------------------------------------------------
  // The route

  /** `POST /upload`. `receive` stands for the multipart parser, called with the
      size limit (None when the request carries no file); `fileId` is the UUID
      generated for this upload; `protocol` and `hostname` are the request's own. */
  function Upload(receive: nat -> Option<FilePart>, fileId: string, protocol: string, hostname: string): (r: UploadReply)
    ensures r.BadRequest? <==>
      receive(FileSizeLimit).None? || !AcceptsMimeType(receive(FileSizeLimit).value.mimetype)
    ensures r.Stored? ==>
      && r.fileName == StoredFileName(fileId, receive(FileSizeLimit).value.filename)
      && r.fileUrl == FileUrl(protocol, hostname, r.fileName)
  {
    match receive(FileSizeLimit)
    case None => BadRequest
    case Some(upload) =>
      if !AcceptsMimeType(upload.mimetype) then BadRequest
      else
        var fileName := StoredFileName(fileId, upload.filename);
        Stored(fileName, FileUrl(protocol, hostname, fileName))
  }

  /** What an accepted upload promises: the file is stored inside the uploads
      folder under the fresh id and the client's extension, and everything
      after the answered URL string's last '/' is exactly that name. */
  lemma UploadStoresUnderFreshName(receive: nat -> Option<FilePart>, fileId: string, protocol: string, hostname: string)
    requires IsUuid(fileId)
    requires Upload(receive, fileId, protocol, hostname).Stored?
    ensures var r := Upload(receive, fileId, protocol, hostname);
      && AcceptsMimeType(receive(FileSizeLimit).value.mimetype)
      && r.fileName[..|fileId|] == fileId
      && r.fileName[|fileId|..] == Extname(receive(FileSizeLimit).value.filename)
      && '/' !in r.fileName
      && r.fileUrl[LastIndexOf(r.fileUrl, '/') + 1..] == r.fileName
  {
    var r := Upload(receive, fileId, protocol, hostname);
    StoredFileNameShape(fileId, receive(FileSizeLimit).value.filename);
    FileUrlLastSegment(protocol, hostname, r.fileName);
  }
}
