/**
 Content classification of a fetched URL: whether its body is stored verbatim
 (binary) or rewritten and scanned for links (text), and the file type that picks
 the link scanner.
 */
module Classify {
  import opened JsString

  /**
   The extensions `isBinFile` treats as text: the alternation `\.html?|\.css|\.js|\.xml|\.php|\.jsp|\.asp`
   with `\.html?` spelled out as `.html` and `.htm`.
   */
  const TextExtensions: seq<string> := ["html", "htm", "css", "js", "xml", "php", "jsp", "asp"]

  /**
   `isBinFile`: a URL is text only when it ends with `/` or with a dot and one of the text
   extensions (the regular expression is anchored at the end only); everything else is binary.
   */
  predicate IsBinFile(url: string)
    ensures !IsBinFile(url) <==> EndsWith(url, "/") || ('.' in url && FileType(url) in TextExtensions)
  {
    TextSuffixByFileType(url);
    !(EndsWith(url, "/") || exists i :: 0 <= i < |TextExtensions| && EndsWith(url, "." + TextExtensions[i]))
  }

  /**
   `getFiletypeByLocalUrl`: the last piece of `url.split('.')`, that is the text after
   the last dot, or the whole URL when it has no dot.
   */
  function FileType(url: string): (r: string)
    ensures '.' !in r
    ensures EndsWith(url, r)
    ensures |r| == |url| || url[|url| - |r| - 1] == '.'
  {
    var pieces := Split(url, '.');
    SplitLastPiece(url, '.');
    SplitPiecesAvoid(url, '.');
    pieces[|pieces| - 1]
  }

  /** A URL without a dot is its own file type. */
  lemma FileTypeNoDot(url: string)
    requires '.' !in url
    ensures FileType(url) == url
  {
    var r := FileType(url);
    assert url[|url| - |r|..] == url;
  }

  /**
   Ending with `.e` for a dot-free `e` is the same as having a dot and file type `e`:
   the suffix test of `isBinFile` and the split of `getFiletypeByLocalUrl` agree.
   */
  lemma EndsWithExtension(url: string, e: string)
    requires '.' !in e
    ensures EndsWith(url, "." + e) <==> ('.' in url && FileType(url) == e)
  {
    var r := FileType(url);
    if EndsWith(url, "." + e) {
      var d := |url| - |e| - 1;
      assert url[d] == ("." + e)[0];
      assert url[|url| - |e|..] == e;
    }
    if '.' in url && r == e {
      assert url[|url| - |e| - 1..] == "." + e;
    }
  }

  /**
   The suffix test of `isBinFile` described through the file type: the URL ends with a dot
   and a text extension exactly when it has a dot and a text extension as its file type.
   */
  lemma TextSuffixByFileType(url: string)
    ensures (exists i :: 0 <= i < |TextExtensions| && EndsWith(url, "." + TextExtensions[i]))
        <==> ('.' in url && FileType(url) in TextExtensions)
  {
    forall i | 0 <= i < |TextExtensions|
      ensures EndsWith(url, "." + TextExtensions[i]) <==> ('.' in url && FileType(url) == TextExtensions[i])
    {
      EndsWithExtension(url, TextExtensions[i]);
    }
  }

  /** A URL whose extension is not a text extension is binary. */
  lemma BinaryByExtension(url: string, e: string)
    requires '.' !in e && '/' !in e && e !in TextExtensions
    requires EndsWith(url, "." + e)
    ensures IsBinFile(url)
  {
    EndsWithExtension(url, e);
    assert url[|url| - 1] == ("." + e)[|e|];
  }

  /** An image is binary. */
  lemma ImageIsBinary()
    ensures IsBinFile("/img/pic.png")
  {
    var png := "/img/pic.png";
    assert png[|png| - 4..] == ".png";
    BinaryByExtension(png, "png");
  }

  /** A page is text. */
  lemma PageIsText()
    ensures !IsBinFile("/page.html")
  {
    var page := "/page.html";
    assert page[|page| - 5..] == "." + TextExtensions[0];
  }

  /** A directory is text. */
  lemma DirectoryIsText()
    ensures !IsBinFile("/dir/")
  {
    assert "/dir/"[4..] == "/";
  }

  /** The file type of `p.e`, for a dot-free `e`, is `e`, whatever path `p` comes first. */
  lemma FileTypeOfExtension(p: string, e: string)
    requires '.' !in e
    ensures FileType(p + "." + e) == e
  {
    var u := p + "." + e;
    assert u[|p|] == '.';
    assert u[|u| - |e| - 1..] == "." + e;
    EndsWithExtension(u, e);
  }
}
