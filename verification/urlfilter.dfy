/**
 The reference filter `filterUrl`: it turns a raw `href`/`src`/`url()` value into the
 absolute URL string the crawler hands to `new URL(...)`, or rejects it.

 The steps run in a fixed order: a default document is appended to a reference without a
 file extension, a reference with a query is rejected, and the reference is then dispatched
 on its prefix (`http(s):`, `//`, `/`, `./` or `../`, a word character, anything else).
 The parent document is passed in as its pathname instead of living in a global variable.
 The host test is `new RegExp(host).test(...)`, modelled by `RegExpTest`: every `.` of the
 host is a wildcard, every other character stands for itself.
 */
module UrlFilter {
  import opened Wrappers
  import opened JsString

  /** The document name appended to a reference that names a directory. */
  const DefaultDocument := "index.html"

  /** The number of word characters `u` ends with. */
  function TrailingWordChars(u: string): (n: nat)
    ensures n <= |u|
    ensures forall k :: |u| - n <= k < |u| ==> IsWordChar(u[k])
    ensures n < |u| ==> !IsWordChar(u[|u| - n - 1])
    decreases |u|
  {
    if |u| > 0 && IsWordChar(u[|u| - 1]) then
      var n := TrailingWordChars(u[..|u| - 1]);
      assert forall k :: |u| - 1 - n <= k < |u| - 1 ==> u[..|u| - 1][k] == u[k];
      1 + n
    else 0
  }

  /**
   `/\.\w+$/.test(u)`: `u` ends with a dot followed by one or more word characters. A dot is
   not a word character, so it can only sit right before the final run of word characters.
   */
  predicate HasExtension(u: string)
    ensures HasExtension(u) ==> '.' in u && IsWordChar(u[|u| - 1])
  {
    var n := TrailingWordChars(u);
    0 < n < |u| && u[|u| - n - 1] == '.'
  }

  /** A run of word characters up to the end, behind a character that is not one, is the final run. */
  lemma {:induction false} TrailingRun(u: string, i: nat)
    requires i < |u| && !IsWordChar(u[i])
    requires forall k :: i < k < |u| ==> IsWordChar(u[k])
    ensures TrailingWordChars(u) == |u| - i - 1
    decreases |u|
  {
    if i < |u| - 1 {
      var v := u[..|u| - 1];
      assert forall k :: i < k < |v| ==> v[k] == u[k];
      TrailingRun(v, i);
    }
  }

  /** The extension test reads as the regular expression does: a dot, then only word characters up to the end. */
  lemma HasExtensionMeans(u: string)
    ensures HasExtension(u) <==>
      exists i :: 0 <= i < |u| - 1 && u[i] == '.' && forall k :: i < k < |u| ==> IsWordChar(u[k])
  {
    if i :| 0 <= i < |u| - 1 && u[i] == '.' && forall k :: i < k < |u| ==> IsWordChar(u[k]) {
      TrailingRun(u, i);
    }
    if HasExtension(u) {
      var i := |u| - TrailingWordChars(u) - 1;
      assert 0 <= i < |u| - 1 && u[i] == '.' && forall k :: i < k < |u| ==> IsWordChar(u[k]);
    }
  }

  /** `u` has an extension whose dot sits at index `i`. */
  lemma ExtensionAt(u: string, i: nat)
    requires i < |u| - 1 && u[i] == '.'
    requires forall k :: i < k < |u| ==> IsWordChar(u[k])
    ensures HasExtension(u)
  {
    TrailingRun(u, i);
  }

  /** `index.html` has an extension, whatever precedes it. */
  lemma DefaultDocumentExtension(a: string)
    ensures HasExtension(a + DefaultDocument)
  {
    var r := a + DefaultDocument;
    assert r[|r| - 5] == '.';
    assert forall k :: |r| - 5 < k < |r| ==> r[k] == DefaultDocument[k - |a|];
    ExtensionAt(r, |r| - 5);
  }

  /** Lines 139-145: append `index.html` (after a `/` if the reference does not end in one). */
  function WithDefaultDocument(u: string): (r: string)
    ensures HasExtension(r)
    ensures StartsWith(r, u)
  {
    if HasExtension(u) then
      assert u[..|u|] == u;
      u
    else if EndsWith(u, "/") then
      DefaultDocumentExtension(u);
      assert (u + DefaultDocument)[..|u|] == u;
      u + DefaultDocument
    else
      DefaultDocumentExtension(u + "/");
      assert (u + "/" + DefaultDocument)[..|u|] == u;
      u + "/" + DefaultDocument
  }

  /**
   A reference with an extension is kept; any other reference is extended to end in
   `/index.html`, adding the slash only when it is missing.
   */
  lemma DefaultDocumentShape(u: string)
    ensures HasExtension(u) ==> WithDefaultDocument(u) == u
    ensures !HasExtension(u) ==> EndsWith(WithDefaultDocument(u), "/index.html")
    ensures !HasExtension(u) && EndsWith(u, "/") ==> |WithDefaultDocument(u)| == |u| + 10
    ensures !HasExtension(u) && !EndsWith(u, "/") ==> |WithDefaultDocument(u)| == |u| + 11
  {
    if !HasExtension(u) {
      if EndsWith(u, "/") {
        EndsWithDefaultDocument(u[..|u| - 1], u);
      } else {
        EndsWithDefaultDocument(u, u + "/");
      }
    }
  }

  /** `a + "/"` followed by the default document ends in `/index.html`. */
  lemma EndsWithDefaultDocument(a: string, b: string)
    requires b == a + "/"
    ensures EndsWith(b + DefaultDocument, "/index.html")
  {
    var r := b + DefaultDocument;
    assert r[|r| - 11..] == "/" + DefaultDocument by {
      assert r[|r| - 11] == b[|b| - 1];
    }
  }

  /** Appending the default document is idempotent. */
  lemma DefaultDocumentIdempotent(u: string)
    ensures WithDefaultDocument(WithDefaultDocument(u)) == WithDefaultDocument(u)
  {
  }

  /** The default document never brings in or removes a query mark. */
  lemma DefaultDocumentKeepsQuery(u: string)
    ensures '?' in WithDefaultDocument(u) <==> '?' in u
  {
    if !HasExtension(u) {
      var tail := if EndsWith(u, "/") then DefaultDocument else "/" + DefaultDocument;
      assert WithDefaultDocument(u) == u + tail;
      assert '?' !in tail;
    }
  }

  /** An extension survives anything put in front of it. */
  lemma ExtensionPrefixed(a: string, u: string)
    requires HasExtension(u)
    ensures HasExtension(a + u)
  {
    var i := |u| - TrailingWordChars(u) - 1;
    var s := a + u;
    assert s[|a| + i] == '.';
    assert forall k :: |a| + i < k < |s| ==> s[k] == u[k - |a|];
    ExtensionAt(s, |a| + i);
  }

  /** An extension survives dropping a prefix that ends in `/`. */
  lemma ExtensionAfterSlash(u: string, n: nat)
    requires HasExtension(u)
    requires 0 < n <= |u| && u[n - 1] == '/'
    ensures HasExtension(u[n..])
  {
    var i := |u| - TrailingWordChars(u) - 1;
    assert i >= n by {
      assert !IsWordChar('/');
    }
    var v := u[n..];
    assert v[i - n] == '.';
    assert forall k :: i - n < k < |v| ==> v[k] == u[k + n];
    ExtensionAt(v, i - n);
  }

  /**
   Lines 165-172: replace the leading `./` by the parent's directory, or the leading `../` by
   the parent's directory's parent. The directories come from `pathname.split('/').slice(1)`
   with its last one or two segments sliced off, joined with `/` and wrapped in slashes.
   */
  function ResolveRelative(u: string, parentPath: string): (r: string)
    ensures StartsWith(u, "./") ==> StartsWith(r, "/") && EndsWith(r, "/" + u[2..])
    ensures StartsWith(u, "../") ==> StartsWith(r, "/") && EndsWith(r, "/" + u[3..])
    ensures !StartsWith(u, "./") && !StartsWith(u, "../") ==> r == u
  {
    var segments := Split(parentPath, '/')[1..];
    if StartsWith(u, "./") then
      UnderDirectories(Join(SliceTo(segments, |segments| - 1), "/"), u[2..])
    else if StartsWith(u, "../") then
      assert u[1] != '/';
      UnderDirectories(Join(SliceTo(segments, |segments| - 2), "/"), u[3..])
    else u
  }

  /** `"/" + dirs + "/" + x`, which starts with `/` and ends with `/x`. */
  function UnderDirectories(dirs: string, x: string): (r: string)
    ensures StartsWith(r, "/") && EndsWith(r, "/" + x)
  {
    var r := "/" + dirs + "/" + x;
    assert r == ("/" + dirs) + ("/" + x);
    r
  }

  /** Splitting `"/" + join(parts)` on `/` gives an empty first piece and then the parts. */
  lemma SplitRooted(parts: seq<string>)
    requires |parts| >= 1
    requires forall i :: 0 <= i < |parts| ==> '/' !in parts[i]
    ensures Split("/" + Join(parts, "/"), '/')[1..] == parts
  {
    var all := [""] + parts;
    assert all[1..] == parts;
    assert Join(all, "/") == "/" + Join(parts, "/");
    SplitJoin(all, '/');
  }

  /**
   For a parent at `/dir1/.../dirN/file`, `./x` resolves to `/dir1/.../dirN/x`; for a parent
   directly under the root (no directories) it resolves to `//x`.
   */
  lemma ResolveDotSlash(dirs: seq<string>, file: string, x: string)
    requires forall i :: 0 <= i < |dirs| ==> '/' !in dirs[i]
    requires '/' !in file
    ensures ResolveRelative("./" + x, "/" + Join(dirs + [file], "/")) == "/" + Join(dirs, "/") + "/" + x
  {
    var parts := dirs + [file];
    DirectoriesAvoidSlash(dirs, file);
    SplitRooted(parts);
    DirectoriesOf(dirs, file);
    ResolveDotSlashBySegments(x, "/" + Join(parts, "/"), parts, dirs);
  }

  /** The segments of a parent built from slash-free directories and file are those pieces. */
  lemma DirectoriesAvoidSlash(dirs: seq<string>, file: string)
    requires forall i :: 0 <= i < |dirs| ==> '/' !in dirs[i]
    requires '/' !in file
    ensures forall i :: 0 <= i < |dirs + [file]| ==> '/' !in (dirs + [file])[i]
  {
  }

  /** The `./` branch of lines 165-172, for a parent whose segments and directories are known. */
  lemma ResolveDotSlashBySegments(x: string, parentPath: string, segments: seq<string>, kept: seq<string>)
    requires Split(parentPath, '/')[1..] == segments
    requires SliceTo(segments, |segments| - 1) == kept
    ensures ResolveRelative("./" + x, parentPath) == "/" + Join(kept, "/") + "/" + x
  {
    DotSlashPrefix(x);
  }

  /** For a parent at `/dir1/.../dirN/file` with at least one directory, `../x` resolves to `/dir1/.../dirN-1/x`. */
  lemma ResolveDotDotSlash(dirs: seq<string>, file: string, x: string)
    requires |dirs| >= 1
    requires forall i :: 0 <= i < |dirs| ==> '/' !in dirs[i]
    requires '/' !in file
    ensures ResolveRelative("../" + x, "/" + Join(dirs + [file], "/")) == "/" + Join(dirs[..|dirs| - 1], "/") + "/" + x
  {
    var parts := dirs + [file];
    DirectoriesAvoidSlash(dirs, file);
    SplitRooted(parts);
    DotDotPrefix(x);
    DirectoriesOf(dirs, file);
    ResolveBySegments("../" + x, "/" + Join(parts, "/"), parts, dirs[..|dirs| - 1], x);
  }

  /** For a parent directly under the root, `../x` clamps the slice to nothing and resolves to `//x`. */
  lemma ResolveDotDotSlashAtRoot(file: string, x: string)
    requires '/' !in file
    ensures ResolveRelative("../" + x, "/" + file) == "//" + x
  {
    SplitRooted([file]);
    DotDotPrefix(x);
    assert "/" + Join([file], "/") == "/" + file;
    assert SliceTo([file], 1 - 2) == [] by {
      SliceDropsLast([file], 2);
    }
    ResolveBySegments("../" + x, "/" + file, [file], [], x);
    assert "/" + Join([], "/") + "/" + x == "//" + x;
  }

  /** Slicing one segment off the parent's segments leaves its directories; two, all but the last. */
  lemma DirectoriesOf(dirs: seq<string>, file: string)
    ensures SliceTo(dirs + [file], |dirs + [file]| - 1) == dirs
    ensures |dirs| >= 1 ==> SliceTo(dirs + [file], |dirs + [file]| - 2) == dirs[..|dirs| - 1]
  {
    var parts := dirs + [file];
    SliceDropsLast(parts, 1);
    SliceDropsLast(parts, 2);
    assert parts[..|parts| - 1] == dirs;
    if |dirs| >= 1 {
      assert parts[..|parts| - 2] == dirs[..|dirs| - 1];
    }
  }

  /** The two branches of lines 165-172, for a parent whose segments and kept directories are known. */
  lemma ResolveBySegments(u: string, parentPath: string, segments: seq<string>, kept: seq<string>, x: string)
    requires Split(parentPath, '/')[1..] == segments
    requires StartsWith(u, "./") ==> u[2..] == x && SliceTo(segments, |segments| - 1) == kept
    requires !StartsWith(u, "./") && StartsWith(u, "../") ==> u[3..] == x && SliceTo(segments, |segments| - 2) == kept
    ensures StartsWith(u, "./") || StartsWith(u, "../") ==> ResolveRelative(u, parentPath) == "/" + Join(kept, "/") + "/" + x
  {
  }

  lemma DotSlashPrefix(x: string)
    ensures StartsWith("./" + x, "./") && ("./" + x)[2..] == x
  {
    assert ("./" + x)[..2] == "./";
  }

  lemma DotDotPrefix(x: string)
    ensures StartsWith("../" + x, "../") && !StartsWith("../" + x, "./")
    ensures ("../" + x)[3..] == x
  {
    assert ("../" + x)[..3] == "../";
    assert ("../" + x)[1] == '.';
  }

  /** Resolving a relative reference keeps its file extension. */
  lemma ResolvedKeepsExtension(u: string, parentPath: string)
    requires HasExtension(u)
    requires StartsWith(u, "./") || StartsWith(u, "../")
    ensures HasExtension(ResolveRelative(u, parentPath))
  {
    var segments := Split(parentPath, '/')[1..];
    if StartsWith(u, "./") {
      ExtensionAfterSlash(u, 2);
      ExtensionPrefixed("/" + Join(SliceTo(segments, |segments| - 1), "/") + "/", u[2..]);
    } else {
      ExtensionAfterSlash(u, 3);
      ExtensionPrefixed("/" + Join(SliceTo(segments, |segments| - 2), "/") + "/", u[3..]);
    }
  }

  /** A character other than `/` absent from the reference and the parent is absent from the result. */
  lemma ResolveRelativeAvoids(u: string, parentPath: string, x: char)
    requires x != '/' && x !in u && x !in parentPath
    ensures x !in ResolveRelative(u, parentPath)
  {
    var segments := Split(parentPath, '/')[1..];
    if StartsWith(u, "./") {
      DirectoriesAvoid(parentPath, x, |segments| - 1);
      assert x !in u[2..] by {
        assert forall k :: 0 <= k < |u[2..]| ==> u[2..][k] == u[k + 2];
      }
      UnderDirectoriesAvoids(Join(SliceTo(segments, |segments| - 1), "/"), u[2..], x);
    } else if StartsWith(u, "../") {
      assert u[1] != '/';
      DirectoriesAvoid(parentPath, x, |segments| - 2);
      assert x !in u[3..] by {
        assert forall k :: 0 <= k < |u[3..]| ==> u[3..][k] == u[k + 3];
      }
      UnderDirectoriesAvoids(Join(SliceTo(segments, |segments| - 2), "/"), u[3..], x);
    }
  }

  lemma UnderDirectoriesAvoids(dirs: string, t: string, x: char)
    requires x != '/' && x !in dirs && x !in t
    ensures x !in UnderDirectories(dirs, t)
  {
  }

  /** The directories kept from the parent's pathname avoid what the pathname avoids. */
  lemma DirectoriesAvoid(parentPath: string, x: char, end: int)
    requires x != '/' && x !in parentPath
    ensures x !in Join(SliceTo(Split(parentPath, '/')[1..], end), "/")
  {
    var pieces := Split(parentPath, '/');
    JoinSplit(parentPath, '/');
    forall i | 0 <= i < |pieces| ensures x !in pieces[i] {
      if x in pieces[i] {
        JoinKeepsPieceChars(pieces, "/", i, x);
      }
    }
    var kept := SliceTo(pieces[1..], end);
    assert forall i :: 0 <= i < |kept| ==> kept[i] == pieces[i + 1];
    JoinAvoids(kept, "/", x);
  }

  /** The branch of `filterUrl` a reference (its default document already appended) takes. */
  datatype Form =
    | WithQuery          // line 147: contains `?`
    | Absolute           // lines 149-154: `http:` or `https:`
    | ProtocolRelative   // lines 155-160: `//`
    | RootRelative       // lines 161-162: `/`
    | PathRelative       // lines 163-176: `./` or `../`
    | Excluded           // lines 179-181: `mailto:` or `javascript:`
    | BareWord           // lines 182-184: any other reference starting with a word character
    | Other              // lines 186-188: anything else

  /** The tests of lines 147-185, in the order the source makes them. */
  function FormOf(u: string): (f: Form)
    ensures f == WithQuery <==> '?' in u
    ensures f == Absolute ==> StartsWith(u, "http:") || StartsWith(u, "https:")
    ensures f == ProtocolRelative ==> StartsWith(u, "//")
    ensures f == RootRelative ==> StartsWith(u, "/")
    ensures f == PathRelative ==> StartsWith(u, "./") || StartsWith(u, "../")
    ensures f == BareWord ==> |u| > 0 && IsWordChar(u[0])
  {
    if '?' in u then WithQuery
    else if StartsWith(u, "http:") || StartsWith(u, "https:") then Absolute
    else if StartsWith(u, "//") then ProtocolRelative
    else if StartsWith(u, "/") then RootRelative
    else if StartsWith(u, "./") || StartsWith(u, "../") then PathRelative
    else if |u| > 0 && IsWordChar(u[0]) then
      if StartsWith(u, "mailto:") || StartsWith(u, "javascript:") then Excluded else BareWord
    else Other
  }

  /**
   `filterUrl` (lines 137-189): the absolute URL string built for `ref`, or `None` for the
   `false` the crawler gets back. `parentPath` is the pathname of the document the reference
   was found in, `None` when there is none.
   */
  function FilterUrl(ref: string, parentPath: Option<string>, protocol: string, host: string): (r: Option<string>)
    ensures '?' in ref ==> r.None?
    ensures r.Some? ==> HasExtension(r.value)
    ensures r.Some? ==> RegExpTest(r.value, host)
    ensures r.Some? ==> StartsWith(r.value, "http:") || StartsWith(r.value, "https:") || StartsWith(r.value, protocol + ":")
  {
    var u := WithDefaultDocument(ref);
    DefaultDocumentKeepsQuery(ref);
    match FormOf(u)
    case Absolute =>
      if RegExpTest(u, host) then Some(u) else None
    case ProtocolRelative =>
      if RegExpTest(u, host) then
        RegExpTestPrefixed(protocol + ":", u, host);
        ExtensionPrefixed(protocol + ":", u);
        Some(protocol + ":" + u)
      else None
    case RootRelative =>
      Built(protocol, host, u);
      Some(SiteUrl(protocol, host, u))
    case PathRelative =>
      if parentPath.None? then None
      else
        var path := ResolveRelative(u, parentPath.value);
        ResolvedKeepsExtension(u, parentPath.value);
        Built(protocol, host, path);
        Some(SiteUrl(protocol, host, path))
    case BareWord =>
      var path := "/" + u;
      ExtensionPrefixed("/", u);
      Built(protocol, host, path);
      Some(SiteUrl(protocol, host, path))
    case _ => None
  }

  /** The absolute URL `protocol://host` followed by `path`, as lines 162, 173 and 184 assemble it. */
  function SiteUrl(protocol: string, host: string, path: string): string
  {
    protocol + "://" + host + path
  }

  /** What every URL assembled from the configured protocol and host satisfies. */
  lemma Built(protocol: string, host: string, path: string)
    ensures RegExpTest(SiteUrl(protocol, host, path), host)
    ensures StartsWith(SiteUrl(protocol, host, path), protocol + ":")
    ensures HasExtension(path) ==> HasExtension(SiteUrl(protocol, host, path))
  {
    RegExpTestMiddle(protocol + "://", host, path);
    var s := protocol + "://" + host + path;
    assert s[..|protocol + ":"|] == protocol + ":";
    if HasExtension(path) {
      ExtensionPrefixed(protocol + "://" + host, path);
    }
  }

  /** The default document is appended before anything else is looked at. */
  lemma FilterAppendsDefaultFirst(ref: string, parentPath: Option<string>, protocol: string, host: string)
    ensures FilterUrl(ref, parentPath, protocol, host) == FilterUrl(WithDefaultDocument(ref), parentPath, protocol, host)
  {
    DefaultDocumentIdempotent(ref);
  }

  /** Lines 149-154: an `http:` or `https:` reference is kept as it is when it mentions the host. */
  lemma FilterAbsolute(ref: string, parentPath: Option<string>, protocol: string, host: string)
    requires HasExtension(ref) && '?' !in ref
    requires StartsWith(ref, "http:") || StartsWith(ref, "https:")
    ensures FilterUrl(ref, parentPath, protocol, host) == if RegExpTest(ref, host) then Some(ref) else None
  {
    DefaultDocumentShape(ref);
    assert FormOf(ref) == Absolute;
  }

  /** Lines 155-160: a `//` reference mentioning the host gets the configured protocol in front. */
  lemma FilterProtocolRelative(ref: string, parentPath: Option<string>, protocol: string, host: string)
    requires HasExtension(ref) && '?' !in ref
    requires StartsWith(ref, "//")
    ensures FilterUrl(ref, parentPath, protocol, host) == if RegExpTest(ref, host) then Some(protocol + ":" + ref) else None
  {
    DefaultDocumentShape(ref);
    FormFromSlash(ref);
  }

  /** Lines 161-162: a root-relative `/p` becomes `protocol://host/p`. */
  lemma FilterRootRelative(ref: string, parentPath: Option<string>, protocol: string, host: string)
    requires HasExtension(ref) && '?' !in ref
    requires StartsWith(ref, "/") && !StartsWith(ref, "//")
    ensures FilterUrl(ref, parentPath, protocol, host) == Some(SiteUrl(protocol, host, ref))
  {
    DefaultDocumentShape(ref);
    FormFromSlash(ref);
  }

  /**
   Lines 163-176: a `./` or `../` reference is rejected without a parent document and is
   otherwise resolved against the parent's pathname.
   */
  lemma FilterPathRelative(ref: string, parentPath: Option<string>, protocol: string, host: string)
    requires HasExtension(ref) && '?' !in ref
    requires StartsWith(ref, "./") || StartsWith(ref, "../")
    ensures parentPath.None? ==> FilterUrl(ref, parentPath, protocol, host).None?
    ensures parentPath.Some? ==>
      FilterUrl(ref, parentPath, protocol, host) == Some(SiteUrl(protocol, host, ResolveRelative(ref, parentPath.value)))
  {
    DefaultDocumentShape(ref);
    FormFromDot(ref);
  }

  /**
   Lines 178-185: a reference starting with a word character (and not with `http:` or
   `https:`) is rejected for `mailto:` and `javascript:` and otherwise taken as root-relative.
   */
  lemma FilterBareWord(ref: string, parentPath: Option<string>, protocol: string, host: string)
    requires HasExtension(ref) && '?' !in ref
    requires IsWordChar(ref[0]) && !StartsWith(ref, "http:") && !StartsWith(ref, "https:")
    ensures StartsWith(ref, "mailto:") || StartsWith(ref, "javascript:") ==> FilterUrl(ref, parentPath, protocol, host).None?
    ensures !StartsWith(ref, "mailto:") && !StartsWith(ref, "javascript:") ==>
      FilterUrl(ref, parentPath, protocol, host) == Some(SiteUrl(protocol, host, "/" + ref))
  {
    DefaultDocumentShape(ref);
    FormFromWordChar(ref);
  }

  /** Lines 186-188: any other reference (such as `#top.html`) is rejected. */
  lemma FilterOther(ref: string, parentPath: Option<string>, protocol: string, host: string)
    requires HasExtension(ref)
    requires !IsWordChar(ref[0]) && ref[0] != '/' && !StartsWith(ref, "./") && !StartsWith(ref, "../")
    ensures FilterUrl(ref, parentPath, protocol, host).None?
  {
    DefaultDocumentShape(ref);
    FormFromOther(ref);
  }

  /** A reference starting with `/` takes the `//` branch or the `/` branch. */
  lemma FormFromSlash(u: string)
    requires '?' !in u && StartsWith(u, "/")
    ensures StartsWith(u, "//") ==> FormOf(u) == ProtocolRelative
    ensures !StartsWith(u, "//") ==> FormOf(u) == RootRelative
  {
    assert u[0] == '/';
  }

  /** A reference starting with `./` or `../` takes the relative branch. */
  lemma FormFromDot(u: string)
    requires '?' !in u && (StartsWith(u, "./") || StartsWith(u, "../"))
    ensures FormOf(u) == PathRelative
  {
    assert u[0] == '.';
  }

  /** A reference starting with a word character, but not with `http:` or `https:`, takes lines 178-185. */
  lemma FormFromWordChar(u: string)
    requires '?' !in u && |u| > 0 && IsWordChar(u[0]) && !StartsWith(u, "http:") && !StartsWith(u, "https:")
    ensures StartsWith(u, "mailto:") || StartsWith(u, "javascript:") ==> FormOf(u) == Excluded
    ensures !StartsWith(u, "mailto:") && !StartsWith(u, "javascript:") ==> FormOf(u) == BareWord
  {
    assert u[0] != '/' && u[0] != '.';
  }

  /** Any other reference is rejected, by the query test or by the last branch. */
  lemma FormFromOther(u: string)
    requires |u| > 0 && !IsWordChar(u[0]) && u[0] != '/' && !StartsWith(u, "./") && !StartsWith(u, "../")
    ensures FormOf(u) == WithQuery || FormOf(u) == Other
  {
    assert u[0] != 'h';
  }

  /**
   An accepted URL carries no query mark when neither the configuration nor the parent's
   pathname does.
   */
  lemma FilterAcceptedHasNoQuery(ref: string, parentPath: Option<string>, protocol: string, host: string)
    requires '?' !in protocol && '?' !in host
    requires parentPath.Some? ==> '?' !in parentPath.value
    requires FilterUrl(ref, parentPath, protocol, host).Some?
    ensures '?' !in FilterUrl(ref, parentPath, protocol, host).value
  {
    var u := WithDefaultDocument(ref);
    DefaultDocumentKeepsQuery(ref);
    if parentPath.Some? {
      ResolveRelativeAvoids(u, parentPath.value, '?');
    }
  }

  /**
   Filtering is idempotent on its own output: for an `http` or `https` configuration, an
   accepted URL is accepted again unchanged, whatever the parent.
   */
  lemma FilterIdempotent(ref: string, parentPath: Option<string>, other: Option<string>, protocol: string, host: string)
    requires protocol == "http" || protocol == "https"
    requires '?' !in host
    requires parentPath.Some? ==> '?' !in parentPath.value
    requires FilterUrl(ref, parentPath, protocol, host).Some?
    ensures FilterUrl(FilterUrl(ref, parentPath, protocol, host).value, other, protocol, host)
         == FilterUrl(ref, parentPath, protocol, host)
  {
    var v := FilterUrl(ref, parentPath, protocol, host).value;
    FilterAcceptedHasNoQuery(ref, parentPath, protocol, host);
    assert StartsWith(v, "http:") || StartsWith(v, "https:") by {
      if StartsWith(v, protocol + ":") {
        assert protocol + ":" == "http:" || protocol + ":" == "https:";
      }
    }
    FilterAbsolute(v, other, protocol, host);
  }

  /** The characters after the first `c` in `s`; empty when it has no `c`. */
  function AfterFirst(s: string, c: char): string
    decreases |s|
  {
    if |s| == 0 then s
    else if s[0] == c then s[1..]
    else AfterFirst(s[1..], c)
  }

  /** The suffix of `s` that starts at its first `c`; empty when it has no `c`. */
  function FromFirst(s: string, c: char): string
    decreases |s|
  {
    if |s| == 0 || s[0] == c then s
    else FromFirst(s[1..], c)
  }

  /** `s` without its leading slashes. */
  function SkipSlashes(s: string): string
    decreases |s|
  {
    if |s| > 0 && s[0] == '/' then SkipSlashes(s[1..]) else s
  }

  /** `c` ends the path of a URL: a query starts at `?`, a fragment at `#`. */
  predicate EndsPath(c: char) {
    c == '?' || c == '#'
  }

  /** The part of `s` in front of its first `?` or `#`. */
  function BeforeQuery(s: string): (r: string)
    ensures StartsWith(s, r)
    ensures '?' !in r && '#' !in r
    ensures |r| < |s| ==> EndsPath(s[|r|])
    decreases |s|
  {
    if |s| == 0 || EndsPath(s[0]) then
      assert s[..0] == "";
      ""
    else
      var t := BeforeQuery(s[1..]);
      assert s[..|t| + 1] == [s[0]] + s[1..][..|t|];
      [s[0]] + t
  }

  /** Text free of `?` and `#` in front is kept whole. */
  lemma {:induction false} BeforeQueryPrefixed(a: string, b: string)
    requires '?' !in a && '#' !in a
    ensures BeforeQuery(a + b) == a + BeforeQuery(b)
    decreases |a|
  {
    if |a| > 0 {
      assert (a + b)[0] == a[0];
      assert (a + b)[1..] == a[1..] + b;
      BeforeQueryPrefixed(a[1..], b);
      assert a == [a[0]] + a[1..];
    } else {
      assert a + b == b;
    }
  }

  /**
   The `pathname` of `new URL(url)` (line 166) for the special schemes `http` and `https`:
   after the scheme and its slashes comes the host, the path starts at the next `/` and ends
   at the first `?` or `#` (an empty path reads as `/`).
   */
  function Pathname(url: string): (p: string)
    ensures StartsWith(p, "/")
    ensures '?' !in p && '#' !in p
  {
    var beforeQuery := BeforeQuery(SkipSlashes(AfterFirst(url, ':')));
    var path := FromFirst(beforeQuery, '/');
    FromFirstStartsWith(beforeQuery, '/');
    FromFirstSuffix(beforeQuery, '/');
    if path == "" then "/" else path
  }

  lemma {:induction false} FromFirstStartsWith(s: string, c: char)
    ensures FromFirst(s, c) == "" || FromFirst(s, c)[0] == c
    decreases |s|
  {
    if |s| > 0 && s[0] != c {
      FromFirstStartsWith(s[1..], c);
    }
  }

  /** `FromFirst` gives a suffix, so it brings in no character. */
  lemma {:induction false} FromFirstSuffix(s: string, c: char)
    ensures forall x :: x in FromFirst(s, c) ==> x in s
    decreases |s|
  {
    if |s| > 0 && s[0] != c {
      FromFirstSuffix(s[1..], c);
    }
  }

  lemma {:induction false} AfterFirstSkips(a: string, c: char, b: string)
    requires c !in a
    ensures AfterFirst(a + [c] + b, c) == b
    decreases |a|
  {
    if |a| == 0 {
      assert a + [c] + b == [c] + b;
    } else {
      assert (a + [c] + b)[1..] == a[1..] + [c] + b;
      AfterFirstSkips(a[1..], c, b);
    }
  }

  lemma {:induction false} FromFirstSkips(a: string, c: char, b: string)
    requires c !in a && |b| > 0 && b[0] == c
    ensures FromFirst(a + b, c) == b
    decreases |a|
  {
    if |a| == 0 {
      assert a + b == b;
    } else {
      assert (a + b)[1..] == a[1..] + b;
      FromFirstSkips(a[1..], c, b);
    }
  }

  /**
   The pathname of a URL assembled as `protocol://host/path` is `/path` up to its first `?`
   or `#`, when the protocol has no colon and the host is not empty and holds none of `/`,
   `?` and `#`.
   */
  lemma PathnameOfBuilt(protocol: string, host: string, path: string)
    requires ':' !in protocol && |host| > 0 && '/' !in host && '?' !in host && '#' !in host
    requires StartsWith(path, "/")
    ensures Pathname(SiteUrl(protocol, host, path)) == BeforeQuery(path)
  {
    var url := protocol + "://" + host + path;
    assert url == protocol + [':'] + ("//" + host + path);
    AfterFirstSkips(protocol, ':', "//" + host + path);
    SkipHostSlashes(host, path);
    BeforeQueryPrefixed(host, path);
    var p := BeforeQuery(path);
    assert path[0] == path[..1][0] == '/';
    assert |p| > 0 && p[0] == '/' by {
      assert !EndsPath(path[0]);
    }
    FromFirstSkips(host, '/', p);
  }

  lemma SkipHostSlashes(host: string, path: string)
    requires |host| > 0 && host[0] != '/'
    ensures SkipSlashes("//" + host + path) == host + path
  {
    var rest := "//" + host + path;
    assert rest[0] == '/' && rest[1..][0] == '/';
    assert rest[1..][1..] == host + path;
    assert (host + path)[0] == host[0];
    assert SkipSlashes(host + path) == host + path;
    assert SkipSlashes(rest[1..]) == SkipSlashes(host + path);
  }

  /** A fragment ends the pathname: `/p#f` under the site has the pathname `/p`. */
  lemma PathnameDropsFragment(protocol: string, host: string, p: string, f: string)
    requires ':' !in protocol && |host| > 0 && '/' !in host && '?' !in host && '#' !in host
    requires '?' !in p && '#' !in p
    ensures Pathname(SiteUrl(protocol, host, "/" + p + "#" + f)) == "/" + p
  {
    var path := "/" + p + "#" + f;
    assert path[..1] == "/";
    PathnameOfBuilt(protocol, host, path);
    assert path == ("/" + p) + ("#" + f);
    BeforeQueryPrefixed("/" + p, "#" + f);
    assert BeforeQuery("#" + f) == "";
  }
}
