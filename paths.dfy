/** The file-system paths of uploaded screenshots: .NET `Path.Combine` and
    `Path.GetExtension` with the Unix directory separator '/', the public URL
    an upload is stored under, and the path a delete derives back from it. */
module Paths {
  import opened Text

  /** .NET `Path.Combine(a, b)`: a rooted `b` replaces `a`; otherwise the two
      are joined with exactly one separator added when `a` lacks one. */
  function Combine(a: string, b: string): (r: string)
    ensures |b| == 0 ==> r == a
    ensures |b| > 0 && |a| == 0 ==> r == b
    ensures |b| > 0 && b[0] == '/' ==> r == b
    ensures |a| > 0 && |b| > 0 && b[0] != '/' ==> r == a + (if a[|a| - 1] == '/' then "" else "/") + b
  {
    if |b| == 0 then a
    else if |a| == 0 then b
    else if b[0] == '/' then b
    else if a[|a| - 1] == '/' then a + b
    else a + "/" + b
  }

  /** Scans `s[..i]` from the right for the '.' that starts an extension,
      stopping at a separator; the characters after `i` hold neither. */
  function ExtensionScan(s: string, i: nat): (r: string)
    requires i <= |s|
    requires forall k :: i <= k < |s| ==> s[k] != '.' && s[k] != '/'
    ensures r == "" || (2 <= |r| <= |s| && r[0] == '.' && r == s[|s| - |r|..])
    ensures forall k :: 0 <= k < |r| ==> r[k] != '/'
    ensures forall k :: 1 <= k < |r| ==> r[k] != '.'
    ensures r == "" <==> EndsWithDot(s) || forall k :: 0 <= k < i && s[k] == '.' ==> '/' in s[k + 1..]
    decreases i
  {
    if i == 0 then ""
    else if s[i - 1] == '.' then (if i == |s| then "" else s[i - 1..])
    else if s[i - 1] == '/' then ""
    else ExtensionScan(s, i - 1)
  }

  predicate EndsWithDot(s: string) {
    |s| > 0 && s[|s| - 1] == '.'
  }

  /** .NET `Path.GetExtension`: the suffix from the last '.' of the last
      path segment, or "" when that segment has no '.' or ends with one.
      A non-empty result is a suffix of `path` that starts with its only
      '.' and holds no separator, so it starts at the last '.' of the last
      segment; "" comes exactly when every '.' has a separator after it or
      the path ends with '.'. */
  function GetExtension(path: string): (r: string)
    ensures r == "" || (2 <= |r| <= |path| && r[0] == '.' && r == path[|path| - |r|..])
    ensures forall k :: 0 <= k < |r| ==> r[k] != '/'
    ensures forall k :: 1 <= k < |r| ==> r[k] != '.'
    ensures r == "" <==>
      EndsWithDot(path) || forall k :: 0 <= k < |path| && path[k] == '.' ==> '/' in path[k + 1..]
  {
    ExtensionScan(path, |path|)
  }

  /** Only the last '.' counts, and a separator ends the scan. */
  lemma GetExtensionExamples()
    ensures GetExtension("a.b.c") == ".c"
    ensures GetExtension("a.d/b") == ""
    ensures GetExtension("a.") == ""
  {
    assert '/' in "a.d/b"[2..];
    var r := GetExtension("a.b.c");
    assert "a.b.c"[3] == '.' && '/' !in "a.b.c"[4..];
    assert r != "" && r == "a.b.c"[5 - |r|..];
    assert r[|r| - 2] == "a.b.c"[3] by { assert |r| >= 2; }
  }

  /** A name without '.' or '/' followed by an extension has that extension. */
  lemma ExtensionAfter(g: string, e: string)
    requires forall k :: 0 <= k < |g| ==> g[k] != '.' && g[k] != '/'
    requires e == "" || (2 <= |e| && e[0] == '.')
    requires forall k :: 0 <= k < |e| ==> e[k] != '/'
    requires forall k :: 1 <= k < |e| ==> e[k] != '.'
    ensures GetExtension(g + e) == e
  {
    var s := g + e;
    if e == "" {
      assert s == g;
      ScanFindsNone(g, |g|);
    } else {
      forall k | |g| < k < |s| ensures s[k] != '.' && s[k] != '/' {
        assert s[k] == e[k - |g|];
      }
      assert s[|g|] == '.' && s[|g|..] == e;
      ScanReachesDot(s, |g|, |s|);
    }
  }

  /** Scanning a name without '.' or '/' finds no extension. */
  lemma {:induction false} ScanFindsNone(s: string, i: nat)
    requires i <= |s|
    requires forall k :: 0 <= k < |s| ==> s[k] != '.' && s[k] != '/'
    ensures ExtensionScan(s, i) == ""
    decreases i
  {
    if i > 0 {
      ScanFindsNone(s, i - 1);
    }
  }

  /** Scanning leftwards from `i` stops at the '.' at `d`, the last one,
      which is not the final character. */
  lemma {:induction false} ScanReachesDot(s: string, d: nat, i: nat)
    requires d < i <= |s| && d + 1 < |s| && s[d] == '.'
    requires forall k :: d < k < |s| ==> s[k] != '.' && s[k] != '/'
    ensures ExtensionScan(s, i) == s[d..]
    decreases i
  {
    if i - 1 > d {
      ScanReachesDot(s, d, i - 1);
    }
  }

  /** The name an upload is stored under: a fresh GUID and the client file's
      extension. */
  function StoredFileName(guid: string, clientFileName: string): string {
    guid + GetExtension(clientFileName)
  }

  /** The public URL of a stored file, `/uploads/{projectId}/{fileName}`. */
  function UploadUrl(projectId: int, fileName: string): string {
    "/uploads/" + IntToString(projectId) + "/" + fileName
  }

  /** Where an upload is written: `root/{projectId}/{fileName}`. */
  function UploadPath(root: string, projectId: int, fileName: string): string {
    Combine(Combine(root, IntToString(projectId)), fileName)
  }

  /** The file a screenshot delete removes: the URL without its leading
      '/' characters and with every "uploads/" dropped, under the root. */
  function DeletePath(root: string, url: string): string {
    Combine(root, ReplaceAll(TrimStartChar(url, '/'), "uploads/", ""))
  }

  /** The stored name starts with the GUID and, since a GUID has no '.' or
      '/', keeps the client file's extension. */
  lemma StoredFileNameKeepsExtension(guid: string, clientFileName: string)
    ensures StartsWith(StoredFileName(guid, clientFileName), guid)
    ensures (forall k :: 0 <= k < |guid| ==> guid[k] != '.' && guid[k] != '/') ==>
      GetExtension(StoredFileName(guid, clientFileName)) == GetExtension(clientFileName)
  {
    var e := GetExtension(clientFileName);
    assert (guid + e)[..|guid|] == guid;
    if forall k :: 0 <= k < |guid| ==> guid[k] != '.' && guid[k] != '/' {
      ExtensionAfter(guid, e);
    }
  }

  /** The URL is the prefix "/uploads/", then a string denoting the project
      id, then '/', then the file name. */
  lemma UploadUrlParts(projectId: int, fileName: string)
    ensures var r := UploadUrl(projectId, fileName);
      && StartsWith(r, "/uploads/")
      && 10 <= |r| - |fileName| && r[|r| - |fileName|..] == fileName && r[|r| - |fileName| - 1] == '/'
      && r[9..|r| - |fileName| - 1] == IntToString(projectId)
      && IntValue(r[9..|r| - |fileName| - 1]) == projectId
  {
    var d := IntToString(projectId);
    var pre := "/uploads/" + d + "/";
    var r := UploadUrl(projectId, fileName);
    assert r == pre + fileName;
    assert r[..|pre|] == pre && |pre| == |r| - |fileName|;
    assert pre[..9] == "/uploads/" && pre[9..|pre| - 1] == d;
    assert r[9..|pre| - 1] == pre[9..|pre| - 1];
    assert r[|r| - |fileName|..] == fileName;
  }

  /** A relative file name is written into the project's directory under
      the root; a rooted one replaces the whole path. */
  lemma UploadPathInProjectDir(root: string, projectId: int, fileName: string)
    requires |fileName| > 0
    ensures fileName[0] != '/' ==> UploadPath(root, projectId, fileName) == Combine(root, IntToString(projectId) + "/" + fileName)
    ensures fileName[0] == '/' ==> UploadPath(root, projectId, fileName) == fileName
  {
    if fileName[0] != '/' {
      CombineTwice(root, IntToString(projectId), fileName);
    }
  }

  /** For a URL under "/uploads/" whose rest holds no further "uploads/",
      the delete path is that rest under the root. */
  lemma DeletePathOfUploads(root: string, rest: string)
    requires forall i :: !OccursAt(rest, "uploads/", i)
    ensures DeletePath(root, "/uploads/" + rest) == Combine(root, rest)
  {
    StripUploadsPrefix(rest);
  }

  /** No "uploads/" occurs in a project id followed by '/' and a file name
      without separators: the only '/' follows digits and signs. */
  lemma NoUploadsSegment(d: string, f: string)
    requires forall k :: 0 <= k < |d| ==> IsDigitOrMinus(d[k])
    requires forall k :: 0 <= k < |f| ==> f[k] != '/'
    ensures forall i :: !OccursAt(d + "/" + f, "uploads/", i)
  {
    var s := d + "/" + f;
    forall i ensures !OccursAt(s, "uploads/", i) {
      if i < 0 || i > |s| - 8 {
      } else if i + 7 < |d| {
        assert s[i + 7] == d[i + 7];
        assert s[i..i + 8][7] != '/';
      } else if i + 7 == |d| {
        assert s[i] == d[i];
        assert s[i..i + 8][0] != 'u';
      } else {
        assert s[i + 7] == f[i + 6 - |d|];
        assert s[i..i + 8][7] != '/';
      }
    }
  }

  /** Joining `a` with `d` and then with `f` is joining `a` with `d/f`, for
      relative `d` and `f` where `d` does not end in a separator. */
  lemma CombineTwice(a: string, d: string, f: string)
    requires |d| > 0 && d[0] != '/' && d[|d| - 1] != '/'
    requires |f| > 0 && f[0] != '/'
    ensures Combine(Combine(a, d), f) == Combine(a, d + "/" + f)
  {
    var b := Combine(a, d);
    assert |b| > 0 && b[|b| - 1] == d[|d| - 1];
  }

  /** Dropping the leading '/' of a URL path and then its only "uploads/". */
  lemma StripUploadsPrefix(rest: string)
    requires forall i :: !OccursAt(rest, "uploads/", i)
    ensures ReplaceAll(TrimStartChar("/uploads/" + rest, '/'), "uploads/", "") == rest
  {
    var u := "uploads/" + rest;
    assert ("/uploads/" + rest)[1..] == u;
    assert TrimStartChar("/uploads/" + rest, '/') == u;
    assert StartsWith(u, "uploads/") && u[8..] == rest;
    ReplaceAbsent(rest, "uploads/", "");
  }

  /** The path a delete derives from an uploaded screenshot's URL is the
      path the upload wrote, for any root, whenever the stored file name is
      non-empty and has no separator (a GUID has neither problem). */
  lemma DeletePathOfUploadUrl(root: string, projectId: int, fileName: string)
    requires |fileName| > 0
    requires forall k :: 0 <= k < |fileName| ==> fileName[k] != '/'
    ensures DeletePath(root, UploadUrl(projectId, fileName)) == UploadPath(root, projectId, fileName)
  {
    var d := IntToString(projectId);
    var rest := d + "/" + fileName;
    assert UploadUrl(projectId, fileName) == "/uploads/" + rest;
    NoUploadsSegment(d, fileName);
    StripUploadsPrefix(rest);
    CombineTwice(root, d, fileName);
  }

  /** So the file a delete removes is the one its upload created. */
  lemma DeleteRemovesUploadedFile(root: string, projectId: int, guid: string, clientFileName: string)
    requires |guid| > 0 && forall k :: 0 <= k < |guid| ==> guid[k] != '/'
    ensures var fileName := StoredFileName(guid, clientFileName);
      DeletePath(root, UploadUrl(projectId, fileName)) == UploadPath(root, projectId, fileName)
  {
    var fileName := StoredFileName(guid, clientFileName);
    var ext := GetExtension(clientFileName);
    forall k | 0 <= k < |fileName| ensures fileName[k] != '/' {
      if k >= |guid| {
        assert fileName[k] == ext[k - |guid|];
      }
    }
    DeletePathOfUploadUrl(root, projectId, fileName);
  }
}
