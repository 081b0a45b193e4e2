/**
 The legal and illegal reference forms listed in the documentation of `filterUrl`
 (update.js lines 117-132), for any protocol, any host and any file name `f` with an
 extension, such as `example.html`.
 */
module FilterExamples {
  import opened Wrappers
  import opened JsString
  import opened UrlFilter

  /** A file name as the documentation uses it: an extension, no query, a word character first. */
  predicate FileName(f: string) {
    HasExtension(f) && '?' !in f && IsWordChar(f[0])
    && !StartsWith(f, "http:") && !StartsWith(f, "https:")
    && !StartsWith(f, "mailto:") && !StartsWith(f, "javascript:")
  }

  lemma StartsWithAppend(a: string, b: string)
    ensures StartsWith(a + b, a)
  {
    assert (a + b)[..|a|] == a;
  }

  lemma StartsWithTrans(s: string, t: string, p: string)
    requires StartsWith(s, t) && StartsWith(t, p)
    ensures StartsWith(s, p)
  {
    assert s[..|p|] == s[..|t|][..|p|];
  }

  /** `http://host/f` and `https://host/f` are legal and kept as they are. */
  lemma LegalAbsoluteForms(protocol: string, host: string, f: string, parentPath: Option<string>)
    requires FileName(f) && '?' !in host
    ensures FilterUrl("http://" + host + "/" + f, parentPath, protocol, host) == Some("http://" + host + "/" + f)
    ensures FilterUrl("https://" + host + "/" + f, parentPath, protocol, host) == Some("https://" + host + "/" + f)
  {
    AbsoluteForm("http://", "http:", host, f, parentPath, protocol);
    AbsoluteForm("https://", "https:", host, f, parentPath, protocol);
  }

  lemma AbsoluteForm(scheme: string, prefix: string, host: string, f: string, parentPath: Option<string>, protocol: string)
    requires FileName(f) && '?' !in host
    requires (scheme == "http://" && prefix == "http:") || (scheme == "https://" && prefix == "https:")
    ensures FilterUrl(scheme + host + "/" + f, parentPath, protocol, host) == Some(scheme + host + "/" + f)
  {
    var a := scheme + host + "/" + f;
    Hosted(a, scheme, host, f);
    assert StartsWith(a, prefix) by {
      assert a[..|prefix|] == scheme[..|prefix|];
    }
    FilterAbsolute(a, parentPath, protocol, host);
  }

  /**
   The host test looks at the whole reference, not at its host part: a link to another
   server is kept when its path mentions the configured host.
   */
  lemma HostInPathAccepted(other: string, host: string, f: string, parentPath: Option<string>, protocol: string)
    requires FileName(f) && '?' !in other && '?' !in host
    ensures FilterUrl("http://" + other + "/" + host + "/" + f, parentPath, protocol, host)
         == Some("http://" + other + "/" + host + "/" + f)
  {
    var pre := "http://" + other + "/";
    var a := pre + host + "/" + f;
    assert '?' !in pre;
    Hosted(a, pre, host, f);
    assert StartsWith(a, "http:") by {
      assert a[..5] == pre[..5];
    }
    FilterAbsolute(a, parentPath, protocol, host);
  }

  /** What `pre + host + "/" + f` satisfies for a file name `f`. */
  lemma Hosted(a: string, pre: string, host: string, f: string)
    requires a == pre + host + "/" + f
    requires FileName(f) && '?' !in pre && '?' !in host
    ensures HasExtension(a) && RegExpTest(a, host) && '?' !in a && StartsWith(a, pre)
  {
    assert a == (pre + host + "/") + f;
    ExtensionPrefixed(pre + host + "/", f);
    RegExpTestMiddle(pre, host, "/" + f);
    assert pre + host + ("/" + f) == a;
    assert a[..|pre|] == pre;
  }

  /** `//host/f` is legal and gets the configured protocol. */
  lemma LegalProtocolRelativeForm(protocol: string, host: string, f: string, parentPath: Option<string>)
    requires FileName(f) && '?' !in host
    ensures FilterUrl("//" + host + "/" + f, parentPath, protocol, host) == Some(SiteUrl(protocol, host, "/" + f))
  {
    assert RegExpTest(host, host) by {
      PatternSelf(host, host);
    }
    ProtocolRelativeAccepted(protocol, host, host, f, parentPath);
  }

  /** `/f` and the bare `f` are legal and name `f` under the site root. */
  lemma LegalRootForms(protocol: string, host: string, f: string, parentPath: Option<string>)
    requires FileName(f)
    ensures FilterUrl("/" + f, parentPath, protocol, host) == Some(SiteUrl(protocol, host, "/" + f))
    ensures FilterUrl(f, parentPath, protocol, host) == Some(SiteUrl(protocol, host, "/" + f))
  {
    var a := "/" + f;
    ExtensionPrefixed("/", f);
    assert StartsWith(a, "/") && !StartsWith(a, "//") by {
      assert a[..1] == "/" && a[1] == f[0];
    }
    FilterRootRelative(a, parentPath, protocol, host);
    FilterBareWord(f, parentPath, protocol, host);
  }

  /**
   `./f` found in `/d/page` is legal and names `/d/f`; `../f` found in `/d/e/page` names
   `/d/f` as well. Both are rejected when there is no parent document.
   */
  lemma LegalRelativeForms(protocol: string, host: string, f: string, d: string, e: string, page: string)
    requires FileName(f)
    requires '/' !in d && '/' !in e && '/' !in page
    ensures FilterUrl("./" + f, Some("/" + d + "/" + page), protocol, host) == Some(SiteUrl(protocol, host, "/" + d + "/" + f))
    ensures FilterUrl("../" + f, Some("/" + d + "/" + e + "/" + page), protocol, host) == Some(SiteUrl(protocol, host, "/" + d + "/" + f))
    ensures FilterUrl("./" + f, None, protocol, host) == None
    ensures FilterUrl("../" + f, None, protocol, host) == None
  {
    DotSlashForm(protocol, host, f, d, page);
    DotDotSlashForm(protocol, host, f, d, e, page);
    NoParentForm("./", protocol, host, f);
    NoParentForm("../", protocol, host, f);
  }

  lemma NoParentForm(dots: string, protocol: string, host: string, f: string)
    requires FileName(f) && (dots == "./" || dots == "../")
    ensures FilterUrl(dots + f, None, protocol, host) == None
  {
    ExtensionPrefixed(dots, f);
    StartsWithAppend(dots, f);
    FilterPathRelative(dots + f, None, protocol, host);
  }

  /** A relative reference, once legal, is the protocol and host followed by the resolved path. */
  lemma RelativeForm(dots: string, protocol: string, host: string, f: string, parent: string)
    requires FileName(f) && (dots == "./" || dots == "../")
    ensures FilterUrl(dots + f, Some(parent), protocol, host) == Some(SiteUrl(protocol, host, ResolveRelative(dots + f, parent)))
  {
    ExtensionPrefixed(dots, f);
    StartsWithAppend(dots, f);
    FilterPathRelative(dots + f, Some(parent), protocol, host);
  }

  lemma JoinTwo(a: string, b: string)
    ensures Join([a] + [b], "/") == a + "/" + b
  {
    assert ([a] + [b])[1..] == [b];
  }

  lemma JoinThree(a: string, b: string, c: string)
    ensures Join([a, b] + [c], "/") == a + "/" + b + "/" + c
  {
    assert ([a, b] + [c])[1..] == [b] + [c];
    JoinTwo(b, c);
  }

  lemma DotSlashForm(protocol: string, host: string, f: string, d: string, page: string)
    requires FileName(f)
    requires '/' !in d && '/' !in page
    ensures FilterUrl("./" + f, Some("/" + d + "/" + page), protocol, host) == Some(SiteUrl(protocol, host, "/" + d + "/" + f))
  {
    RelativeForm("./", protocol, host, f, "/" + d + "/" + page);
    ResolveInDirectory(d, page, f);
  }

  lemma ResolveInDirectory(d: string, page: string, f: string)
    requires '/' !in d && '/' !in page
    ensures ResolveRelative("./" + f, "/" + d + "/" + page) == "/" + d + "/" + f
  {
    JoinTwo(d, page);
    assert "/" + d + "/" + page == "/" + Join([d] + [page], "/");
    ResolveDotSlash([d], page, f);
  }

  lemma DotDotSlashForm(protocol: string, host: string, f: string, d: string, e: string, page: string)
    requires FileName(f)
    requires '/' !in d && '/' !in e && '/' !in page
    ensures FilterUrl("../" + f, Some("/" + d + "/" + e + "/" + page), protocol, host) == Some(SiteUrl(protocol, host, "/" + d + "/" + f))
  {
    RelativeForm("../", protocol, host, f, "/" + d + "/" + e + "/" + page);
    ResolveUpOne(d, e, page, f);
  }

  lemma ResolveUpOne(d: string, e: string, page: string, f: string)
    requires '/' !in d && '/' !in e && '/' !in page
    ensures ResolveRelative("../" + f, "/" + d + "/" + e + "/" + page) == "/" + d + "/" + f
  {
    JoinThree(d, e, page);
    assert "/" + d + "/" + e + "/" + page == "/" + Join([d, e] + [page], "/");
    ResolveDotDotSlash([d, e], page, f);
    assert [d, e][..1] == [d];
  }

  /**
   A `./` reference in a page directly under the root resolves to a path that starts with
   `//`, and a `../` reference in a page one directory down does the same.
   */
  lemma RootParentDoubleSlash(protocol: string, host: string, f: string, d: string, page: string)
    requires FileName(f)
    requires '/' !in d && '/' !in page
    ensures FilterUrl("./" + f, Some("/" + page), protocol, host) == Some(SiteUrl(protocol, host, "//" + f))
    ensures FilterUrl("../" + f, Some("/" + d + "/" + page), protocol, host) == Some(SiteUrl(protocol, host, "//" + f))
  {
    RootDotSlash(protocol, host, f, page);
    RootDotDotSlash(protocol, host, f, d, page);
  }

  lemma RootDotSlash(protocol: string, host: string, f: string, page: string)
    requires FileName(f) && '/' !in page
    ensures FilterUrl("./" + f, Some("/" + page), protocol, host) == Some(SiteUrl(protocol, host, "//" + f))
  {
    RelativeForm("./", protocol, host, f, "/" + page);
    ResolveAtRoot(page, f);
  }

  lemma ResolveAtRoot(page: string, f: string)
    requires '/' !in page
    ensures ResolveRelative("./" + f, "/" + page) == "//" + f
  {
    assert "/" + page == "/" + Join([] + [page], "/");
    ResolveDotSlash([], page, f);
  }

  lemma RootDotDotSlash(protocol: string, host: string, f: string, d: string, page: string)
    requires FileName(f) && '/' !in d && '/' !in page
    ensures FilterUrl("../" + f, Some("/" + d + "/" + page), protocol, host) == Some(SiteUrl(protocol, host, "//" + f))
  {
    RelativeForm("../", protocol, host, f, "/" + d + "/" + page);
    ResolveUpToRoot(d, page, f);
  }

  lemma ResolveUpToRoot(d: string, page: string, f: string)
    requires '/' !in d && '/' !in page
    ensures ResolveRelative("../" + f, "/" + d + "/" + page) == "//" + f
  {
    JoinTwo(d, page);
    assert "/" + d + "/" + page == "/" + Join([d] + [page], "/");
    ResolveDotDotSlash([d], page, f);
    assert [d][..0] == [];
  }

  /**
   `http://other/f` is illegal when the host test finds no match of the configured host
   anywhere in it, as for `http://aaaaa/example.html`.
   */
  lemma IllegalAbsoluteForm(other: string, host: string, f: string, parentPath: Option<string>, protocol: string)
    requires FileName(f) && '?' !in other
    requires !RegExpTest("http://" + other + "/" + f, host)
    ensures FilterUrl("http://" + other + "/" + f, parentPath, protocol, host) == None
  {
    var pre := "http://" + other + "/";
    var a := pre + f;
    ExtensionPrefixed(pre, f);
    assert '?' !in a;
    assert StartsWith(a, "http:") by {
      assert a[..5] == pre[..5];
    }
    FilterAbsolute(a, parentPath, protocol, host);
  }

  /** `mailto:` and `javascript:` references are illegal, whatever follows the scheme. */
  lemma IllegalSchemes(x: string, parentPath: Option<string>, protocol: string, host: string)
    ensures FilterUrl("mailto:" + x, parentPath, protocol, host) == None
    ensures FilterUrl("javascript:" + x, parentPath, protocol, host) == None
  {
    IllegalScheme("mailto:", x, parentPath, protocol, host);
    IllegalScheme("javascript:", x, parentPath, protocol, host);
  }

  lemma IllegalScheme(scheme: string, x: string, parentPath: Option<string>, protocol: string, host: string)
    requires scheme == "mailto:" || scheme == "javascript:"
    ensures FilterUrl(scheme + x, parentPath, protocol, host) == None
  {
    var u := WithDefaultDocument(scheme + x);
    assert StartsWith(u, scheme) by {
      StartsWithAppend(scheme, x);
      StartsWithTrans(u, scheme + x, scheme);
    }
    SchemeForm(u, scheme);
  }

  /** A reference starting with `mailto:` or `javascript:` is excluded unless it has a query. */
  lemma SchemeForm(u: string, scheme: string)
    requires scheme == "mailto:" || scheme == "javascript:"
    requires StartsWith(u, scheme)
    ensures FormOf(u) == WithQuery || FormOf(u) == Excluded
  {
    assert u[0] == scheme[0] && IsWordChar(u[0]);
    assert !StartsWith(u, "http:") && !StartsWith(u, "https:") by {
      assert u[0] != 'h';
    }
  }

  /** A fragment reference such as `#` or `#top` is illegal. */
  lemma IllegalFragment(x: string, parentPath: Option<string>, protocol: string, host: string)
    ensures FilterUrl("#" + x, parentPath, protocol, host) == None
  {
    var u := WithDefaultDocument("#" + x);
    assert StartsWith(u, "#") by {
      StartsWithAppend("#", x);
      StartsWithTrans(u, "#" + x, "#");
    }
    FragmentForm(u);
  }

  /** A reference starting with `#` takes the last branch unless it has a query. */
  lemma FragmentForm(u: string)
    requires StartsWith(u, "#")
    ensures FormOf(u) == WithQuery || FormOf(u) == Other
  {
    assert u[0] == '#' && !IsWordChar(u[0]);
  }

  /**
   The host test is an unanchored regular-expression match: `//nothost/f` is accepted for
   the host `host`, although the documentation lists it as illegal, and so is every other
   host that merely contains the configured one.
   */
  lemma SubstringHostAccepted(protocol: string, host: string, other: string, f: string, parentPath: Option<string>)
    requires FileName(f) && '?' !in host && '?' !in other
    ensures FilterUrl("//" + other + host + "/" + f, parentPath, protocol, host)
         == Some(SiteUrl(protocol, other + host, "/" + f))
  {
    assert RegExpTest(other + host, host) by {
      RegExpTestMiddle(other, host, "");
      assert other + host + "" == other + host;
    }
    ProtocolRelativeAccepted(protocol, other + host, host, f, parentPath);
    assert "//" + other + host == "//" + (other + host);
  }

  /**
   Each `.` of the host matches any character but a line terminator: with the host
   `a.b`, the host `aXb` passes the test for every such `X`.
   */
  lemma DotInHostIsWildcard(protocol: string, a: string, b: string, x: char, f: string, parentPath: Option<string>)
    requires FileName(f) && '?' !in a && '?' !in b && x != '?' && !IsLineTerminator(x)
    ensures FilterUrl("//" + a + [x] + b + "/" + f, parentPath, protocol, a + "." + b)
         == Some(SiteUrl(protocol, a + [x] + b, "/" + f))
  {
    var other := a + [x] + b;
    WildcardShape(a, b, x, f, other);
    ProtocolRelativeAccepted(protocol, other, a + "." + b, f, parentPath);
  }

  lemma WildcardShape(a: string, b: string, x: char, f: string, other: string)
    requires other == a + [x] + b
    requires '?' !in a && '?' !in b && x != '?' && !IsLineTerminator(x)
    ensures RegExpTest(other, a + "." + b) && '?' !in other
    ensures "//" + a + [x] + b + "/" + f == "//" + other + "/" + f
  {
    DotWildcard(a, b, x);
  }

  /** `//h/f` is accepted, with the configured protocol in front, whenever `h` passes the host test. */
  lemma ProtocolRelativeAccepted(protocol: string, h: string, host: string, f: string, parentPath: Option<string>)
    requires FileName(f) && '?' !in h && RegExpTest(h, host)
    ensures FilterUrl("//" + h + "/" + f, parentPath, protocol, host) == Some(SiteUrl(protocol, h, "/" + f))
  {
    var u := "//" + h + "/" + f;
    ProtocolRelativeShape(protocol, h, host, f, u);
    FilterProtocolRelative(u, parentPath, protocol, host);
  }

  lemma ProtocolRelativeShape(protocol: string, h: string, host: string, f: string, u: string)
    requires u == "//" + h + "/" + f
    requires FileName(f) && '?' !in h && RegExpTest(h, host)
    ensures HasExtension(u) && RegExpTest(u, host) && StartsWith(u, "//") && '?' !in u
    ensures protocol + ":" + u == SiteUrl(protocol, h, "/" + f)
  {
    DoubleSlashShape(h, f, u);
    HostInside(h, host, f);
    ProtocolPrefixed(protocol, h, f, u);
  }

  lemma ProtocolPrefixed(protocol: string, h: string, f: string, u: string)
    requires u == "//" + h + "/" + f
    ensures protocol + ":" + u == SiteUrl(protocol, h, "/" + f)
  {
    assert protocol + ":" + u == protocol + "://" + h + ("/" + f);
  }

  lemma DoubleSlashShape(h: string, f: string, u: string)
    requires u == "//" + h + "/" + f
    requires HasExtension(f) && '?' !in f && '?' !in h
    ensures HasExtension(u) && StartsWith(u, "//") && '?' !in u
  {
    assert u == ("//" + h + "/") + f;
    ExtensionPrefixed("//" + h + "/", f);
    assert u[..2] == "//";
    assert '?' !in "//" + h + "/";
  }

  lemma HostInside(h: string, host: string, f: string)
    requires RegExpTest(h, host)
    ensures RegExpTest("//" + h + "/" + f, host)
  {
    var t := h + ("/" + f);
    RegExpTestSuffixed(h, "/" + f, host);
    RegExpTestPrefixed("//", t, host);
    assert "//" + h + "/" + f == "//" + t;
  }
}
