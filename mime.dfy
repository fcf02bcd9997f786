/** getMimeType: the content type of a file, chosen by the extension of its
    name. The extension is what Go's filepath.Ext returns: the suffix from the
    last dot of the final path element ('/' separates elements). */
module Mime {

  const OctetStream := "application/octet-stream"

  /** The twelve content types getMimeType can answer. */
  const MimeTypes: set<string> := {
    "image/jpeg", "image/png", "application/pdf", "application/msword",
    "application/vnd.ms-excel", "application/vnd.ms-powerpoint",
    "application/zip", "application/x-rar-compressed",
    "application/x-7z-compressed", "text/plain", "text/html", OctetStream }

  /** filepath.Ext: scanning back from the end, stop at a '/' (no extension)
      or at a '.' (the extension is from there to the end). */
  function Ext(path: string): (r: string)
    ensures |r| <= |path|
    ensures r != [] ==> r[0] == '.'
    decreases |path|
  {
    if |path| == 0 then ""
    else
      var c := path[|path| - 1];
      if c == '/' then ""
      else if c == '.' then "."
      else
        var q := path[..|path| - 1];
        var e := Ext(q);
        if e == "" then "" else e + [c]
  }

  /** The sixteen extensions the switch names. */
  const KnownExtensions: set<string> := {
    ".jpg", ".jpeg", ".png", ".pdf", ".doc", ".docx", ".xls", ".xlsx",
    ".ppt", ".pptx", ".zip", ".rar", ".7z", ".txt", ".html", ".htm" }

  /** The extension switch, with application/octet-stream as the default. */
  function TypeOfExt(ext: string): (r: string)
    ensures r in MimeTypes
    ensures r == OctetStream <==> ext !in KnownExtensions
  {
    match ext
    case ".jpg" => "image/jpeg"
    case ".jpeg" => "image/jpeg"
    case ".png" => "image/png"
    case ".pdf" => "application/pdf"
    case ".doc" => "application/msword"
    case ".docx" => "application/msword"
    case ".xls" => "application/vnd.ms-excel"
    case ".xlsx" => "application/vnd.ms-excel"
    case ".ppt" => "application/vnd.ms-powerpoint"
    case ".pptx" => "application/vnd.ms-powerpoint"
    case ".zip" => "application/zip"
    case ".rar" => "application/x-rar-compressed"
    case ".7z" => "application/x-7z-compressed"
    case ".txt" => "text/plain"
    case ".html" => "text/html"
    case ".htm" => "text/html"
    case _ => OctetStream
  }

  /** getMimeType: the switch applied to the file name's extension. */
  function MimeType(filename: string): (r: string)
    ensures r in MimeTypes
  {
    TypeOfExt(Ext(filename))
  }

  /** The type of a name with a given extension depends on nothing else. */
  lemma TypeOfSuffix(stem: string, e: string)
    requires |e| > 0 && e[0] == '.' && '.' !in e[1..] && '/' !in e[1..]
    ensures MimeType(stem + e) == TypeOfExt(e)
  {
    ExtOfSuffix(stem, e);
  }

  /** A non-empty extension is a suffix of the name, from its last dot,
      with no '/' after that dot. */
  lemma {:induction false} ExtIsSuffix(path: string)
    ensures var r := Ext(path);
      r != [] ==> r == path[|path| - |r|..] && '.' !in r[1..] && '/' !in r[1..]
    decreases |path|
  {
    if |path| > 0 {
      var n := |path| - 1;
      var c := path[n];
      var q := path[..n];
      var e := Ext(q);
      if c != '/' && c != '.' && e != "" {
        var r := e + [c];
        assert Ext(path) == r;
        ExtIsSuffix(q);
        assert e == q[|q| - |e|..];
        assert path[|path| - |r|..] == q[|q| - |e|..] + [c];
        assert r[1..] == e[1..] + [c];
      }
    }
  }

  /** There is no extension exactly when every dot in the name has a '/'
      after it, that is, when the final element has no dot. */
  lemma {:induction false} NoExtension(path: string)
    ensures Ext(path) == "" <==> forall k :: 0 <= k < |path| && path[k] == '.' ==> '/' in path[k + 1..]
    decreases |path|
  {
    if |path| > 0 {
      var n := |path| - 1;
      var c := path[n];
      var q := path[..n];
      if c == '/' {
        forall k | 0 <= k < |path| && path[k] == '.'
          ensures '/' in path[k + 1..]
        {
          assert path[k + 1..][n - k - 1] == c;
        }
      } else if c == '.' {
        assert path[n + 1..] == [];
      } else {
        NoExtension(q);
        if Ext(path) == "" {
          forall k | 0 <= k < |path| && path[k] == '.'
            ensures '/' in path[k + 1..]
          {
            assert k < n && q[k] == path[k];
            assert path[k + 1..] == q[k + 1..] + [c];
          }
        } else {
          var k :| 0 <= k < n && q[k] == '.' && '/' !in q[k + 1..];
          assert path[k + 1..] == q[k + 1..] + [c];
          assert path[k] == '.';
        }
      }
    }
  }

  /** A name ending in a dot-suffix with no further dot or '/' has exactly
      that suffix as its extension, whatever precedes it. */
  lemma {:induction false} ExtOfSuffix(stem: string, e: string)
    requires |e| > 0 && e[0] == '.' && '.' !in e[1..] && '/' !in e[1..]
    ensures Ext(stem + e) == e
    decreases |e|
  {
    var p := stem + e;
    if |e| > 1 {
      var e' := e[..|e| - 1];
      assert p[..|p| - 1] == stem + e';
      assert e'[1..] == e[1..|e| - 1];
      assert p[|p| - 1] == e[|e| - 1];
      assert e[|e| - 1] in e[1..];
      ExtOfSuffix(stem, e');
      assert e' + [e[|e| - 1]] == e;
    }
  }

  /** A final path element without a dot has no extension, even when a
      directory above it has one. */
  lemma {:induction false} ExtOfPlainName(dir: string, name: string)
    requires '.' !in name && '/' !in name
    ensures Ext(dir + "/" + name) == ""
    decreases |name|
  {
    var p := dir + "/" + name;
    if |name| > 0 {
      assert p[..|p| - 1] == dir + "/" + name[..|name| - 1];
      assert p[|p| - 1] == name[|name| - 1];
      assert name[|name| - 1] in name;
      ExtOfPlainName(dir, name[..|name| - 1]);
    }
  }

  /** Synonym extensions answer the same type, for any name before them. */
  lemma ImageSynonyms(stem: string)
    ensures MimeType(stem + ".jpg") == MimeType(stem + ".jpeg") == "image/jpeg"
    ensures MimeType(stem + ".png") == "image/png"
  {
    TypeOfSuffix(stem, ".jpg");
    TypeOfSuffix(stem, ".jpeg");
    TypeOfSuffix(stem, ".png");
  }

  lemma WordSynonyms(stem: string)
    ensures MimeType(stem + ".doc") == MimeType(stem + ".docx") == "application/msword"
  {
    TypeOfSuffix(stem, ".doc");
    TypeOfSuffix(stem, ".docx");
  }

  lemma ExcelSynonyms(stem: string)
    ensures MimeType(stem + ".xls") == MimeType(stem + ".xlsx") == "application/vnd.ms-excel"
  {
    TypeOfSuffix(stem, ".xls");
    TypeOfSuffix(stem, ".xlsx");
  }

  lemma PowerPointSynonyms(stem: string)
    ensures MimeType(stem + ".ppt") == MimeType(stem + ".pptx") == "application/vnd.ms-powerpoint"
  {
    TypeOfSuffix(stem, ".ppt");
    TypeOfSuffix(stem, ".pptx");
  }

  lemma TextSynonyms(stem: string)
    ensures MimeType(stem + ".html") == MimeType(stem + ".htm") == "text/html"
    ensures MimeType(stem + ".txt") == "text/plain"
  {
    TypeOfSuffix(stem, ".html");
    TypeOfSuffix(stem, ".htm");
    TypeOfSuffix(stem, ".txt");
  }

  /** Matching is case-sensitive: an upper-case extension is not recognised. */
  lemma CaseSensitive(stem: string)
    ensures MimeType(stem + ".PDF") == OctetStream
    ensures MimeType(stem + ".JPG") == OctetStream
    ensures MimeType(stem + ".pdf") == "application/pdf"
  {
    TypeOfSuffix(stem, ".PDF");
    TypeOfSuffix(stem, ".JPG");
    TypeOfSuffix(stem, ".pdf");
  }

  /** Only the last dot counts. */
  lemma LastDotCounts()
    ensures MimeType("a.tar.zip") == "application/zip"
    ensures MimeType("archive.7z") == "application/x-7z-compressed"
  {
    TypeOfSuffix("a.tar", ".zip");
    assert "a.tar" + ".zip" == "a.tar.zip";
    TypeOfSuffix("archive", ".7z");
    assert "archive" + ".7z" == "archive.7z";
  }

  /** A dot in a directory name does not make an extension. */
  lemma LastElementOnly()
    ensures MimeType("d.pdf/readme") == OctetStream
  {
    ExtOfPlainName("d.pdf", "readme");
    assert "d.pdf" + "/" + "readme" == "d.pdf/readme";
  }

  /** A name whose final element has no dot gets the default type. */
  lemma NoExtensionDefault(dir: string, name: string)
    requires '.' !in name && '/' !in name
    ensures MimeType(dir + "/" + name) == OctetStream
    ensures MimeType(name) == OctetStream
  {
    ExtOfPlainName(dir, name);
    NoExtension(name);
  }
}
