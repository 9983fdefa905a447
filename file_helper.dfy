/**
 * The pure parts of the file helper: the image-extension test, the URL
 * check at the head of `download`, and the extension a download falls back
 * on when its path has none.
 *
 * Ruby's `^` and `$` match at line boundaries, not only at the ends of the
 * string; the predicates below state that explicitly.
 */
module FileHelpers {
  import opened Wrappers
  import opened Text

  /** `images`: the extensions (without the dot) that count as images. */
  const Images: set<string> := {"jpg", "jpeg", "png", "gif", "tif", "tiff", "bmp", "svg", "webp", "ico"}

  /** `$` at position `i`: the end of the string or just before a line feed. */
  predicate LineEnd(s: string, i: int)
  {
    0 <= i <= |s| && (i == |s| || s[i] == '\n')
  }

  /** `^` at position `i`: the start of the string or just after a line feed. */
  predicate LineStart(s: string, i: int)
  {
    0 <= i <= |s| && (i == 0 || s[i - 1] == '\n')
  }

  /** `images_regexp` matches at `p`: a dot, then `e` in any letter case, then a line end. */
  predicate ImageExtensionAt(f: string, p: int, e: string)
  {
    0 <= p && p + 1 + |e| <= |f| && f[p] == '.' && ToLower(f[p + 1..p + 1 + |e|]) == e && LineEnd(f, p + 1 + |e|)
  }

  /** `is_image?(filename)`: `images_regexp` (`/\.(jpg|jpeg|...)$/i`) matches somewhere. */
  predicate IsImage(f: string)
  {
    exists p, e :: e in Images && 0 <= p < |f| && ImageExtensionAt(f, p, e)
  }

  /** For a one-line file name: an image iff, lower-cased, it ends with a dot and an image extension. */
  lemma ImageIffExtension(f: string)
    requires '\n' !in f
    ensures IsImage(f) <==> exists e :: e in Images && EndsWith(ToLower(f), "." + e)
  {
    if IsImage(f) {
      var p, e :| e in Images && 0 <= p < |f| && ImageExtensionAt(f, p, e);
      MatchEndsName(f, p, e);
    }
    if exists e :: e in Images && EndsWith(ToLower(f), "." + e) {
      var e :| e in Images && EndsWith(ToLower(f), "." + e);
      EndingMatches(f, e);
    }
  }

  lemma MatchEndsName(f: string, p: int, e: string)
    requires '\n' !in f
    requires ImageExtensionAt(f, p, e)
    ensures EndsWith(ToLower(f), "." + e)
  {
    assert forall j :: 0 <= j < |f| ==> f[j] != '\n';
    assert p + 1 + |e| == |f|;
    LowerSlice(f, p, |f|);
    assert ToLower(f[p..]) == ['.'] + ToLower(f[p + 1..]);
  }

  lemma EndingMatches(f: string, e: string)
    requires EndsWith(ToLower(f), "." + e)
    ensures ImageExtensionAt(f, |f| - 1 - |e|, e)
  {
    var p := |f| - 1 - |e|;
    LowerSlice(f, p, |f|);
    assert ToLower(f[p..]) == "." + e;
    assert f[p] == '.' by {
      assert ToLower(f[p..])[0] == ToLowerChar(f[p]) == '.';
    }
    assert f[p + 1..p + 1 + |e|] == f[p + 1..];
    assert ToLower(f[p + 1..]) == e by {
      assert f[p..|f|] == f[p..] && f[p + 1..|f|] == f[p + 1..];
      assert ToLower(f[p..]) == [ToLowerChar(f[p])] + ToLower(f[p + 1..]);
      assert ToLower(f[p + 1..]) == ToLower(f[p..])[1..] == ("." + e)[1..];
    }
  }

  /** Lower-casing commutes with slicing. */
  lemma LowerSlice(f: string, i: int, j: int)
    requires 0 <= i <= j <= |f|
    ensures ToLower(f[i..j]) == ToLower(f)[i..j]
    ensures i < j ==> ToLower(f[i..j]) == [ToLowerChar(f[i])] + ToLower(f[i + 1..j])
  {
  }

  /** The dot is required: a name with no dot, such as a bare "png", is never an image. */
  lemma NoDotNoImage(f: string)
    requires '.' !in f
    ensures !IsImage(f)
  {
    forall p, e | e in Images && 0 <= p < |f|
      ensures !ImageExtensionAt(f, p, e)
    {
      assert f[p] in f;
    }
  }

  lemma BareExtensionIsNotImage()
    ensures !IsImage("png")
  {
    NoDotNoImage("png");
  }

  /** The test ignores letter case: a name and its lower-cased form are images alike. */
  lemma ImageIgnoresCase(f: string)
    ensures IsImage(ToLower(f)) <==> IsImage(f)
  {
    var g := ToLower(f);
    forall p, e | e in Images && 0 <= p < |f|
      ensures ImageExtensionAt(g, p, e) <==> ImageExtensionAt(f, p, e)
    {
      if p + 1 + |e| <= |f| {
        LowerSlice(f, p + 1, p + 1 + |e|);
        ToLowerIdempotent(f[p + 1..p + 1 + |e|]);
        assert g[p + 1..p + 1 + |e|] == ToLower(f[p + 1..p + 1 + |e|]);
        assert g[p] == '.' <==> f[p] == '.';
        if p + 1 + |e| < |f| {
          assert g[p + 1 + |e|] == '\n' <==> f[p + 1 + |e|] == '\n';
        }
      }
    }
  }

  /** With the line-end anchor, an image extension ending the first line is enough. */
  lemma ImageOnFirstLine(name: string, e: string, rest: string)
    requires e in Images && '\n' !in e
    ensures IsImage(name + "." + e + "\n" + rest)
  {
    var f := name + "." + e + "\n" + rest;
    var p := |name|;
    assert f[p] == '.';
    assert f[p + 1..p + 1 + |e|] == e;
    assert f[p + 1 + |e|] == '\n';
    ToLowerLowercase(e);
    assert ImageExtensionAt(f, p, e);
  }

  /** The image extensions are already lower case. */
  lemma ToLowerLowercase(e: string)
    requires e in Images
    ensures ToLower(e) == e
  {
  }

  /** The protocol check at the head of `download`, as written: `url =~ /^https?:\/\//`, `^` at any line start. */
  predicate ProtocolCheckAsWritten(url: string)
  {
    exists i :: 0 <= i <= |url| && LineStart(url, i) && (StartsWith(url[i..], "http://") || StartsWith(url[i..], "https://"))
  }

  /** The check as intended: the URL itself starts with `http://` or `https://`. */
  predicate ProtocolCheck(url: string)
  {
    StartsWith(url, "http://") || StartsWith(url, "https://")
  }

  /** The intended check is the as-written one restricted to the first line. */
  lemma ProtocolCheckOnOneLine(url: string)
    requires '\n' !in url
    ensures ProtocolCheckAsWritten(url) <==> ProtocolCheck(url)
  {
    if ProtocolCheckAsWritten(url) {
      var i :| 0 <= i <= |url| && LineStart(url, i) && (StartsWith(url[i..], "http://") || StartsWith(url[i..], "https://"));
      assert forall j :: 0 <= j < |url| ==> url[j] != '\n';
    }
    if ProtocolCheck(url) {
      assert LineStart(url, 0) && url[0..] == url;
    }
  }

  /** Any URL whose second line is a web address passes the check as written, whatever its first line. */
  lemma LaterLinePasses(first: string, rest: string)
    ensures ProtocolCheckAsWritten(first + "\n" + rest) <== StartsWith(rest, "http://")
  {
    if StartsWith(rest, "http://") {
      var url := first + "\n" + rest;
      var i := |first| + 1;
      assert url[i - 1] == '\n' && url[i..] == rest;
      assert LineStart(url, i);
    }
  }

  /** A URL whose first line is not a web address passes the as-written check once a later line is one. */
  lemma ProtocolCheckLetsOtherSchemesThrough()
    ensures ProtocolCheckAsWritten("file:///etc/passwd\nhttp://example.com/")
    ensures !ProtocolCheck("file:///etc/passwd\nhttp://example.com/")
  {
    var url := "file:///etc/passwd\nhttp://example.com/";
    assert url == "file:///etc/passwd" + "\n" + "http://example.com/";
    assert StartsWith("http://example.com/", "http://");
    LaterLinePasses("file:///etc/passwd", "http://example.com/");
    NotWebByFirstChar(url);
  }

  /** A URL that does not begin with `h` is not a web address. */
  lemma NotWebByFirstChar(url: string)
    requires |url| > 0 && url[0] != 'h'
    ensures !ProtocolCheck(url)
  {
    if |url| >= 7 {
      assert url[..7][0] == url[0] != "http://"[0];
    }
    if |url| >= 8 {
      assert url[..8][0] == url[0] != "https://"[0];
    }
  }

  datatype DownloadError = InvalidUrl

  /** `"https:" + url if url.start_with?("//")`. */
  function ProtocolRelative(url: string): (r: string)
    ensures StartsWith(url, "//") ==> r == "https:" + url
    ensures !StartsWith(url, "//") ==> r == url
  {
    if StartsWith(url, "//") then "https:" + url else url
  }

  /**
   * The URL `download` fetches, or `InvalidParameters(:url)`: protocol-relative
   * URLs become `https:` ones, then anything but an http or https URL is refused.
   */
  function DownloadUrl(url: string): (r: Result<string, DownloadError>)
    ensures r.Ok? <==> ProtocolCheck(ProtocolRelative(url))
    ensures r.Ok? ==> r.value == ProtocolRelative(url)
  {
    var u := ProtocolRelative(url);
    if ProtocolCheck(u) then Ok(u) else Err(InvalidUrl)
  }

  /** A protocol-relative URL is always fetched over https. */
  lemma ProtocolRelativeIsHttps(rest: string)
    ensures DownloadUrl("//" + rest) == Ok("https://" + rest)
  {
    var url := "//" + rest;
    assert StartsWith(url, "//") by {
      assert url[..2] == "//";
    }
    assert "https:" + url == "https://" + rest;
    assert ("https://" + rest)[..8] == "https://";
  }

  /** A URL that starts with neither scheme nor "//" is refused. */
  lemma OtherSchemesRefused(url: string)
    requires !StartsWith(url, "//") && !StartsWith(url, "http://") && !StartsWith(url, "https://")
    ensures DownloadUrl(url) == Err(InvalidUrl)
  {
  }

  /**
   * The extension the temporary file gets: the path's own (`File.extname`),
   * or, when that is blank and the response has a content type, the one the
   * MIME table gives for it, with "jpe" read as "jpg" and a dot in front.
   */
  function DownloadExtension(extension: string, contentType: Option<string>,
                             lookup: string -> Option<string>): (r: string)
    ensures !IsBlank(extension) ==> r == extension
    ensures IsBlank(extension) && contentType.Some? && !IsBlank(contentType.value) ==>
      var ext := lookup(contentType.value);
      && (ext == Some("jpe") ==> r == ".jpg")
      && (ext.Some? && ext.value != "jpe" && !IsBlank(ext.value) ==> r == "." + ext.value)
      && (ext.None? || IsBlank(ext.value) ==> r == extension)
    ensures IsBlank(extension) && (contentType.None? || IsBlank(contentType.value)) ==> r == extension
  {
    if IsBlank(extension) && contentType.Some? && !IsBlank(contentType.value) then
      var ext := lookup(contentType.value);
      assert !IsBlank("jpe") && !IsBlank("jpg") by {
        assert "jpe"[0] == 'j' && "jpg"[0] == 'j';
      }
      var ext' := if ext == Some("jpe") then Some("jpg") else ext;
      if ext'.Some? && !IsBlank(ext'.value) then "." + ext'.value else extension
    else extension
  }

  /** The fallback always yields a dotted extension or leaves the path's (blank) one. */
  lemma FallbackIsDotted(extension: string, contentType: Option<string>, lookup: string -> Option<string>)
    requires IsBlank(extension)
    ensures var r := DownloadExtension(extension, contentType, lookup);
      r == extension || (|r| >= 2 && r[0] == '.' && r[1..] != "jpe")
  {
    var r := DownloadExtension(extension, contentType, lookup);
    if r != extension {
      var ext := lookup(contentType.value);
      if ext == Some("jpe") {
        assert r == ".jpg";
      } else {
        assert r == "." + ext.value && ext.value != "" && r[1..] == ext.value;
      }
    }
  }
}
