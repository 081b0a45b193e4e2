/**
 The rewrite of line 249 that turns absolute links to the crawled site into root-relative
 ones before a text document is saved and scanned:
 `fileContent.replace(new RegExp(`(https?:\/\/)?(${host})?`, 'g'), '')`.

 Both groups are optional, so the expression matches at every index, often with an empty
 match. A global replace scans left to right: after a non-empty match it continues where
 the match ended, after an empty one it keeps the character at that index and moves one on.
 */
module Rewrite {
  import opened JsString

  /** `s` starts with `http://` (`k == 7`) or with `https://` (`k == 8`). */
  predicate SchemeAt(s: string, k: nat) {
    && (k == 7 || k == 8) && |s| >= k
    && s[0] == 'h' && s[1] == 't' && s[2] == 't' && s[3] == 'p'
    && (k == 8 ==> s[4] == 's')
    && s[k - 3] == ':' && s[k - 2] == '/' && s[k - 1] == '/'
  }

  /** The match of the first group `(https?:\/\/)?` at the start of `s`: `s?` is greedy. */
  function SchemeLength(s: string): (n: nat)
    ensures n == 0 || n == 7 || n == 8
    ensures n <= |s|
  {
    if SchemeAt(s, 8) then 8
    else if SchemeAt(s, 7) then 7
    else 0
  }

  /** The group takes `https://` or `http://` exactly when the text starts with it. */
  lemma SchemeLengthPrefix(s: string)
    ensures SchemeLength(s) == 8 <==> StartsWith(s, "https://")
    ensures SchemeLength(s) == 7 <==> StartsWith(s, "http://")
    ensures SchemeLength(s) == 0 <==> !StartsWith(s, "https://") && !StartsWith(s, "http://")
  {
    SchemeAtPrefix(s, 8, "https://");
    SchemeAtPrefix(s, 7, "http://");
    if SchemeAt(s, 8) {
      assert !SchemeAt(s, 7);
    }
  }

  lemma SchemeAtPrefix(s: string, k: nat, scheme: string)
    requires k == |scheme| && (scheme == "https://" || scheme == "http://")
    ensures SchemeAt(s, k) <==> StartsWith(s, scheme)
  {
    if |s| >= k {
      if SchemeAt(s, k) {
        assert s[..k] == scheme;
      } else if StartsWith(s, scheme) {
        assert s[..k] == scheme;
        assert forall i :: 0 <= i < k ==> s[i] == scheme[i];
      }
    }
  }

  /**
   The length of the whole match at the start of `s`: the scheme if there is one, then the
   host pattern if it matches right there. Neither group can fail, so there is no backtracking.
   */
  function MatchLength(s: string, host: string): (n: nat)
    ensures n <= |s|
  {
    var k := SchemeLength(s);
    k + if PatternAt(s[k..], host) then |host| else 0
  }

  /**
   The length of the match a regular expression makes at the start of a text, 0 for the
   empty match. It never runs past the end of the text.
   */
  type Scanner = f: string -> nat | forall s :: f(s) <= |s|
    witness EmptyMatch

  function EmptyMatch(s: string): nat {
    0
  }

  /**
   `text.replace(re, '')` for a global `re`: a non-empty match is dropped and the scan goes
   on behind it; at an empty match the character there is kept and the scan moves one on.
   */
  function ReplaceAll(f: Scanner, s: string): (r: string)
    ensures |r| <= |s|
    decreases |s|
  {
    if |s| == 0 then ""
    else
      var n := f(s);
      if n == 0 then [s[0]] + ReplaceAll(f, s[1..])
      else ReplaceAll(f, s[n..])
  }

  /** The length of the match that starts at index `i` of `s`. */
  function ScanAt(f: Scanner, s: string, i: nat): nat
    requires i <= |s|
  {
    f(s[i..])
  }

  /** No match other than the empty one starts at any index of `a` inside `a + b`. */
  predicate NoMatchIn(f: Scanner, a: string, b: string) {
    forall i :: 0 <= i < |a| ==> ScanAt(f, a + b, i) == 0
  }

  /** Text in front of which no match starts is copied through unchanged. */
  lemma {:induction false} ReplaceKeepsPrefix(f: Scanner, a: string, b: string)
    requires NoMatchIn(f, a, b)
    ensures ReplaceAll(f, a + b) == a + ReplaceAll(f, b)
    decreases |a|
  {
    if |a| > 0 {
      var s := a + b;
      NoMatchInTail(f, a, b);
      ReplaceKeepsPrefix(f, a[1..], b);
      var r := ReplaceAll(f, b);
      assert ReplaceAll(f, s) == [a[0]] + (a[1..] + r);
      assert [a[0]] + (a[1..] + r) == a + r by {
        assert a == [a[0]] + a[1..];
      }
    } else {
      assert a + b == b;
    }
  }

  /** Peeling the first character off `a`: only the empty match starts there, and none after. */
  lemma NoMatchInTail(f: Scanner, a: string, b: string)
    requires |a| > 0 && NoMatchIn(f, a, b)
    ensures f(a + b) == 0
    ensures (a + b)[0] == a[0] && (a + b)[1..] == a[1..] + b
    ensures NoMatchIn(f, a[1..], b)
  {
    var s := a + b;
    assert ScanAt(f, s, 0) == 0;
    assert s[0..] == s;
    assert s[1..] == a[1..] + b;
    forall i | 0 <= i < |a[1..]| ensures ScanAt(f, a[1..] + b, i) == 0 {
      assert (a[1..] + b)[i..] == s[i + 1..];
      assert ScanAt(f, s, i + 1) == 0;
    }
  }

  /** The expression of line 249 as a scanner. */
  function HostScanner(host: string): Scanner {
    s => MatchLength(s, host)
  }

  /** The global replace of line 249, with `host` read as a pattern of literals and `.`. */
  function StripHost(s: string, host: string): (r: string)
    ensures |r| <= |s|
  {
    ReplaceAll(HostScanner(host), s)
  }

  /** One step of the replace of line 249 at the start of a non-empty `s`. */
  lemma StripHostStep(s: string, host: string)
    requires |s| > 0
    ensures MatchLength(s, host) == 0 ==> StripHost(s, host) == [s[0]] + StripHost(s[1..], host)
    ensures MatchLength(s, host) > 0 ==> StripHost(s, host) == StripHost(s[MatchLength(s, host)..], host)
  {
    assert HostScanner(host)(s) == MatchLength(s, host);
  }

  /** Text in front of which no match of line 249 starts is copied through unchanged. */
  lemma StripHostKeepsPrefix(a: string, b: string, host: string)
    requires NoMatchIn(HostScanner(host), a, b)
    ensures StripHost(a + b, host) == a + StripHost(b, host)
  {
    ReplaceKeepsPrefix(HostScanner(host), a, b);
  }

  /** `https://host` and `http://host` are removed as one match. */
  lemma StripSchemeAndHost(host: string, t: string)
    ensures StripHost("https://" + host + t, host) == StripHost(t, host)
    ensures StripHost("http://" + host + t, host) == StripHost(t, host)
  {
    SchemeThenHost("https://", host, t);
    SchemeThenHost("http://", host, t);
  }

  lemma SchemeThenHost(scheme: string, host: string, t: string)
    requires scheme == "https://" || scheme == "http://"
    ensures StripHost(scheme + host + t, host) == StripHost(t, host)
  {
    var s := scheme + host + t;
    assert StartsWith(s, scheme) by {
      assert s[..|scheme|] == scheme;
    }
    SchemeLengthPrefix(s);
    assert SchemeLength(s) == |scheme|;
    assert PatternAt(s[|scheme|..], host) by {
      assert s[|scheme|..] == host + t;
      PatternSelf(host + t, host);
    }
    assert s[|scheme| + |host|..] == t;
    StripHostStep(s, host);
  }

  /**
   The scheme group is independent of the host group: `https://` and `http://` are removed in
   front of any other host too, which is left in place behind them.
   */
  lemma StripSchemeOfOtherHost(host: string, t: string)
    requires !PatternAt(t, host)
    ensures StripHost("https://" + t, host) == StripHost(t, host)
    ensures StripHost("http://" + t, host) == StripHost(t, host)
  {
    SchemeOnly("https://", host, t);
    SchemeOnly("http://", host, t);
  }

  lemma SchemeOnly(scheme: string, host: string, t: string)
    requires scheme == "https://" || scheme == "http://"
    requires !PatternAt(t, host)
    ensures StripHost(scheme + t, host) == StripHost(t, host)
  {
    var s := scheme + t;
    assert StartsWith(s, scheme) by {
      assert s[..|scheme|] == scheme;
    }
    SchemeLengthPrefix(s);
    assert SchemeLength(s) == |scheme|;
    assert s[|scheme|..] == t;
    StripHostStep(s, host);
  }

  /** A bare occurrence of the host, without a scheme in front, is removed as well. */
  lemma StripBareHost(host: string, t: string)
    requires !StartsWith(host + t, "http://") && !StartsWith(host + t, "https://")
    ensures StripHost(host + t, host) == StripHost(t, host)
  {
    var s := host + t;
    SchemeLengthPrefix(s);
    PatternSelf(s, host);
    assert s[0..] == s;
    if |host| == 0 {
      assert s == t;
    } else {
      assert s[|host|..] == t;
      StripHostStep(s, host);
    }
  }

  /**
   An absolute link to the site keeps only its path: when no match starts in `pre`,
   `pre + "https://" + host + path` becomes `pre` followed by the rewritten `path`.
   */
  lemma AbsoluteLinkBecomesRootRelative(pre: string, host: string, path: string)
    requires NoMatchIn(HostScanner(host), pre, "https://" + host + path)
    ensures StripHost(pre + "https://" + host + path, host) == pre + StripHost(path, host)
  {
    var t := "https://" + host + path;
    StripHostKeepsPrefix(pre, t, host);
    SchemeThenHost("https://", host, path);
    Regroup(pre, "https://", host, path);
  }

  lemma Regroup(a: string, b: string, c: string, d: string)
    ensures a + b + c + d == a + (b + c + d)
  {
  }

  /** Text that holds no `http://`, no `https://` and no match of a non-empty host is left as it is. */
  lemma {:induction false} StripHostUnchanged(s: string, host: string)
    requires |host| > 0
    requires !RegExpTest(s, "http://") && !RegExpTest(s, "https://") && !RegExpTest(s, host)
    ensures StripHost(s, host) == s
    decreases |s|
  {
    if |s| > 0 {
      LiteralPattern(s, "http://");
      LiteralPattern(s, "https://");
      SchemeLengthPrefix(s);
      assert MatchLength(s, host) == 0;
      StripHostStep(s, host);
      StripHostUnchanged(s[1..], host);
      assert s == [s[0]] + s[1..];
    }
  }

  /**
   One pass is not enough: removing the host can bring a new occurrence together, so the
   rewrite is not idempotent. With the host `xy`, `xxyy` becomes `xy`, which becomes empty.
   */
  lemma StripHostNotIdempotent(x: char, y: char)
    requires x != y && x != '.' && y != '.'
    ensures StripHost([x, x, y, y], [x, y]) == [x, y]
    ensures StripHost(StripHost([x, x, y, y], [x, y]), [x, y]) == ""
  {
    StripFirstPass([x, x, y, y], [x, y]);
    StripSecondPass([x, y]);
  }

  lemma StripFirstPass(s: string, host: string)
    requires |host| == 2 && host[0] != host[1] && host[0] != '.' && host[1] != '.'
    requires s == [host[0]] + host + [host[1]]
    ensures StripHost(s, host) == host
  {
    var b := [host[1]];
    FirstCharKept(s, host, b);
    StripBareHost(host, b);
    LoneCharKept(b, host);
    assert [s[0]] + b == host;
  }

  lemma FirstCharKept(s: string, host: string, b: string)
    requires |host| == 2 && host[0] != host[1] && host[1] != '.'
    requires s == [host[0]] + host + b
    ensures StripHost(s, host) == [s[0]] + StripHost(host + b, host)
  {
    DoubledFirstChar(s, host, b);
    StripHostStep(s, host);
  }

  /** In `x` followed by `xy...`, only the empty match starts at the first character. */
  lemma DoubledFirstChar(s: string, host: string, b: string)
    requires |host| == 2 && host[0] != host[1] && host[1] != '.'
    requires s == [host[0]] + host + b
    ensures MatchLength(s, host) == 0 && s[1..] == host + b
  {
    assert SchemeLength(s) == 0 by {
      assert s[0] == s[1];
      assert !SchemeAt(s, 7) && !SchemeAt(s, 8);
    }
    assert !PatternAt(s, host) by {
      assert !CharMatches(host[1], s[1]);
    }
    assert s[1..] == host + b;
  }

  lemma LoneCharKept(b: string, host: string)
    requires |b| == 1 && |host| == 2
    ensures StripHost(b, host) == b
  {
    assert !PatternAt(b, host);
    StripHostStep(b, host);
    assert b[1..] == "";
  }

  lemma StripSecondPass(host: string)
    requires |host| == 2
    ensures StripHost(host, host) == ""
  {
    StripBareHost(host, "");
    assert host + "" == host;
  }
}
