/**
 The JavaScript string and array operations the crawler relies on, over `seq<char>`:
 `startsWith`/`endsWith`, `RegExp.test` for a pattern of literals and `.`, `String.split` on one
 character, `Array.join` and `Array.slice(0, end)`.
 */
module JsString {

  /** `\w` of a JavaScript regular expression without the `u` flag. */
  predicate IsWordChar(c: char) {
    ('a' <= c <= 'z') || ('A' <= c <= 'Z') || ('0' <= c <= '9') || c == '_'
  }

  predicate StartsWith(s: string, p: string) {
    |p| <= |s| && s[..|p|] == p
  }

  predicate EndsWith(s: string, p: string) {
    |p| <= |s| && s[|s| - |p|..] == p
  }

  /** The line terminators, which `.` in a regular expression does not match. */
  predicate IsLineTerminator(c: char) {
    c == '\n' || c == '\r' || c == '\U{2028}' || c == '\U{2029}'
  }

  /**
   One character of a host used as a regular expression: `.` matches any character but a
   line terminator, every other character (letters, digits, `-`, `:`) only itself.
   */
  predicate CharMatches(p: char, c: char) {
    if p == '.' then !IsLineTerminator(c) else c == p
  }

  /** The pattern `p` matches `s` at its start. */
  predicate PatternAt(s: string, p: string) {
    |p| <= |s| && forall k :: 0 <= k < |p| ==> CharMatches(p[k], s[k])
  }

  /** The pattern `p` matches `s` at index `i`. */
  predicate OccursAt(s: string, p: string, i: nat) {
    i <= |s| && PatternAt(s[i..], p)
  }

  /** `new RegExp(p).test(s)`: the unanchored pattern `p` matches somewhere in `s`. */
  predicate RegExpTest(s: string, p: string)
    ensures RegExpTest(s, p) ==> |p| <= |s|
    ensures |p| == 0 ==> RegExpTest(s, p)
    decreases |s|
  {
    PatternAt(s, p) || (|s| > 0 && RegExpTest(s[1..], p))
  }

  /** The left-to-right scan of `RegExpTest` finds exactly the matches at some index. */
  lemma {:induction false} RegExpTestIffOccurs(s: string, p: string)
    ensures RegExpTest(s, p) <==> exists i: nat :: OccursAt(s, p, i)
    decreases |s|
  {
    if PatternAt(s, p) {
      assert s[0..] == s;
      assert OccursAt(s, p, 0);
    } else if |s| == 0 {
      forall i: nat ensures !OccursAt(s, p, i) {
        if i == 0 {
          assert s[i..] == s;
        }
      }
    } else {
      RegExpTestIffOccurs(s[1..], p);
      if RegExpTest(s[1..], p) {
        var i: nat :| OccursAt(s[1..], p, i);
        assert s[1..][i..] == s[i + 1..];
        assert OccursAt(s, p, i + 1);
      } else {
        forall i: nat ensures !OccursAt(s, p, i) {
          if i == 0 {
            assert s[i..] == s;
          } else if i <= |s| {
            assert s[1..][i - 1..] == s[i..];
            assert !OccursAt(s[1..], p, i - 1);
          }
        }
      }
    }
  }

  /** A pattern without `.` matches exactly the strings that start with it. */
  lemma LiteralPattern(s: string, p: string)
    requires '.' !in p
    ensures PatternAt(s, p) <==> StartsWith(s, p)
  {
    if PatternAt(s, p) {
      assert forall k :: 0 <= k < |p| ==> s[..|p|][k] == p[k];
    }
  }

  /** Every string matches itself as a pattern, and so does every string it starts. */
  lemma PatternSelf(s: string, p: string)
    requires StartsWith(s, p)
    ensures PatternAt(s, p)
  {
    assert forall k :: 0 <= k < |p| ==> s[k] == s[..|p|][k];
  }

  /** A `.` in the pattern stands for any character but a line terminator. */
  lemma DotWildcard(a: string, b: string, c: char)
    requires !IsLineTerminator(c)
    ensures PatternAt(a + [c] + b, a + "." + b)
  {
    var s := a + [c] + b;
    var p := a + "." + b;
    forall k | 0 <= k < |p| ensures CharMatches(p[k], s[k]) {
      if k < |a| {
        assert p[k] == s[k] == a[k];
      } else if k > |a| {
        assert p[k] == s[k] == b[k - |a| - 1];
      }
    }
  }

  lemma {:induction false} RegExpTestPrefixed(a: string, b: string, p: string)
    requires RegExpTest(b, p)
    ensures RegExpTest(a + b, p)
    decreases |a|
  {
    if |a| > 0 {
      RegExpTestPrefixed(a[1..], b, p);
      assert (a + b)[1..] == a[1..] + b;
    } else {
      assert a + b == b;
    }
  }

  lemma {:induction false} RegExpTestSuffixed(a: string, b: string, p: string)
    requires RegExpTest(a, p)
    ensures RegExpTest(a + b, p)
    decreases |a|
  {
    if PatternAt(a, p) {
      assert forall k :: 0 <= k < |p| ==> (a + b)[k] == a[k];
    } else {
      RegExpTestSuffixed(a[1..], b, p);
      assert (a + b)[1..] == a[1..] + b;
    }
  }

  /** `a + p + b` matches the pattern `p`. */
  lemma RegExpTestMiddle(a: string, p: string, b: string)
    ensures RegExpTest(a + p + b, p)
  {
    assert (p + b)[..|p|] == p;
    PatternSelf(p + b, p);
    RegExpTestPrefixed(a, p + b, p);
    assert a + p + b == a + (p + b);
  }

  /** `Array.prototype.join(sep)`. */
  function Join(parts: seq<string>, sep: string): (r: string)
    ensures |r| >= TotalLength(parts)
    decreases |parts|
  {
    if |parts| == 0 then ""
    else if |parts| == 1 then parts[0]
    else parts[0] + sep + Join(parts[1..], sep)
  }

  /** The join is as long as the pieces together, with one separator between each two. */
  lemma {:induction false} JoinLength(parts: seq<string>, sep: string)
    requires |parts| > 0
    ensures |Join(parts, sep)| == TotalLength(parts) + (|parts| - 1) * |sep|
    decreases |parts|
  {
    if |parts| > 1 {
      JoinLength(parts[1..], sep);
      assert (|parts| - 1) * |sep| == |sep| + (|parts| - 2) * |sep|;
    }
  }

  /** The number of occurrences of `c` in `s`. */
  function Count(s: string, c: char): nat
    decreases |s|
  {
    if |s| == 0 then 0 else (if s[0] == c then 1 else 0) + Count(s[1..], c)
  }

  /** The sum of the lengths of `parts`. */
  function TotalLength(parts: seq<string>): nat
    decreases |parts|
  {
    if |parts| == 0 then 0 else |parts[0]| + TotalLength(parts[1..])
  }

  /**
   `String.prototype.split(c)` for a one-character separator: the pieces between the
   occurrences of `c`, so that `split` of the empty string is `[""]`.
   */
  function Split(s: string, c: char): (r: seq<string>)
    ensures |r| == Count(s, c) + 1
    decreases |s|
  {
    if |s| == 0 then [""]
    else
      var rest := Split(s[1..], c);
      if s[0] == c then [""] + rest
      else [[s[0]] + rest[0]] + rest[1..]
  }

  /** No piece of a split holds the separator. */
  lemma {:induction false} SplitPiecesAvoid(s: string, c: char)
    ensures forall i :: 0 <= i < |Split(s, c)| ==> c !in Split(s, c)[i]
    decreases |s|
  {
    if |s| > 0 {
      SplitPiecesAvoid(s[1..], c);
      var rest := Split(s[1..], c);
      if s[0] != c {
        assert c !in [s[0]] + rest[0];
      }
    }
  }

  /** Joining the pieces of a split with the separator gives the string back. */
  lemma {:induction false} JoinSplit(s: string, c: char)
    ensures Join(Split(s, c), [c]) == s
    decreases |s|
  {
    if |s| > 0 {
      var rest := Split(s[1..], c);
      JoinSplit(s[1..], c);
      var r := Split(s, c);
      if s[0] == c {
        assert r == [""] + rest;
        assert r[1..] == rest;
      } else {
        assert r == [[s[0]] + rest[0]] + rest[1..];
        assert r[1..] == rest[1..];
        if |rest| > 1 {
          assert Join(rest, [c]) == rest[0] + [c] + Join(rest[1..], [c]);
        }
      }
    }
  }

  /**
   The last piece of a split is a suffix of the string that is either the whole string
   or preceded by the separator.
   */
  lemma SplitLastPiece(s: string, c: char)
    ensures var r := Split(s, c); var last := r[|r| - 1];
      EndsWith(s, last) && (|last| == |s| || s[|s| - |last| - 1] == c)
  {
    var r := Split(s, c);
    JoinSplit(s, c);
    SplitLastPieceJoined(r, c, s);
  }

  lemma {:induction false} SplitLastPieceJoined(r: seq<string>, c: char, s: string)
    requires |r| >= 1 && s == Join(r, [c])
    ensures var last := r[|r| - 1];
      EndsWith(s, last) && (|last| == |s| || s[|s| - |last| - 1] == c)
    decreases |r|
  {
    if |r| > 1 {
      var tail := Join(r[1..], [c]);
      SplitLastPieceJoined(r[1..], c, tail);
      assert s == (r[0] + [c]) + tail;
    }
  }

  /** Splitting what `join` glued together gives the pieces back. */
  lemma {:induction false} SplitJoin(parts: seq<string>, c: char)
    requires |parts| >= 1
    requires forall i :: 0 <= i < |parts| ==> c !in parts[i]
    ensures Split(Join(parts, [c]), c) == parts
    decreases |parts|, |parts[0]|
  {
    var s := Join(parts, [c]);
    if |parts[0]| == 0 {
      if |parts| == 1 {
        assert s == "";
      } else {
        assert s == [c] + Join(parts[1..], [c]);
        assert s[1..] == Join(parts[1..], [c]);
        SplitJoin(parts[1..], c);
        assert parts == [""] + parts[1..];
      }
    } else {
      var tail := [parts[0][1..]] + parts[1..];
      assert tail[1..] == parts[1..];
      assert c !in parts[0][1..] by {
        assert forall k :: 0 <= k < |parts[0][1..]| ==> parts[0][1..][k] == parts[0][k + 1];
      }
      if |parts| == 1 {
        assert s == parts[0];
        assert Join(tail, [c]) == parts[0][1..];
      } else {
        assert s == parts[0] + [c] + Join(parts[1..], [c]);
        assert Join(tail, [c]) == parts[0][1..] + [c] + Join(parts[1..], [c]);
      }
      assert s == [parts[0][0]] + Join(tail, [c]);
      assert s[1..] == Join(tail, [c]);
      SplitJoin(tail, c);
      assert parts[0] == [parts[0][0]] + parts[0][1..];
    }
  }

  /** Every character of a piece shows up in the join. */
  lemma {:induction false} JoinKeepsPieceChars(parts: seq<string>, sep: string, i: nat, x: char)
    requires i < |parts| && x in parts[i]
    ensures x in Join(parts, sep)
    decreases |parts|
  {
    if |parts| > 1 && i > 0 {
      JoinKeepsPieceChars(parts[1..], sep, i - 1, x);
    }
  }

  /** A character missing from every piece and from the separator is missing from the join. */
  lemma {:induction false} JoinAvoids(parts: seq<string>, sep: string, x: char)
    requires x !in sep
    requires forall i :: 0 <= i < |parts| ==> x !in parts[i]
    ensures x !in Join(parts, sep)
    decreases |parts|
  {
    if |parts| > 1 {
      JoinAvoids(parts[1..], sep, x);
    }
  }

  /** `Array.prototype.slice(0, end)`: a negative `end` counts from the back, clamped at zero. */
  function SliceTo<T>(a: seq<T>, end: int): (r: seq<T>)
    ensures |r| <= |a| && r == a[..|r|]
    ensures 0 <= end <= |a| ==> |r| == end
    ensures end > |a| ==> r == a
    ensures -|a| <= end < 0 ==> |r| == |a| + end
    ensures end < -|a| ==> r == []
  {
    var k := if end < 0 then (if |a| + end < 0 then 0 else |a| + end)
             else (if end > |a| then |a| else end);
    a[..k]
  }

  /**
   `slice(0, length - k)` for the `k` of one or two the path resolution uses drops the last
   `k` entries, and gives the empty array when there are fewer than `k`.
   */
  lemma SliceDropsLast<T>(a: seq<T>, k: int)
    requires 1 <= k <= 2
    ensures |a| >= k ==> SliceTo(a, |a| - k) == a[..|a| - k]
    ensures |a| < k ==> SliceTo(a, |a| - k) == []
  {
  }
}
