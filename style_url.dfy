/** The background-image URL that `_capture_background_image` reads out of
    the element's inline style with
    `style.split('url("')[1].split('")')[0]`, modelled on Python's
    `str.split` with a non-empty separator. */
module StyleUrl {
  import opened Common

  const UrlOpen: string := "url(\""
  const UrlClose: string := "\")"

  /** `sep` starts at index `i` of `s`. */
  predicate OccursAt(s: string, sep: string, i: int)
  {
    0 <= i && i + |sep| <= |s| && s[i..i + |sep|] == sep
  }

  ghost predicate Contains(s: string, sep: string)
  {
    exists i :: OccursAt(s, sep, i)
  }

  /** Python's `s.find(sep, start)`: the first index at or after `start`
      where `sep` occurs, or -1. */
  function FindFrom(s: string, sep: string, start: nat): (r: int)
    ensures r == -1 || start <= r
    ensures r == -1 ==> forall i :: start <= i ==> !OccursAt(s, sep, i)
    ensures r != -1 ==> OccursAt(s, sep, r) && forall i :: start <= i < r ==> !OccursAt(s, sep, i)
    decreases |s| - start
  {
    if start + |sep| > |s| then -1
    else if s[start..start + |sep|] == sep then start
    else FindFrom(s, sep, start + 1)
  }

  /** Python's `s.find(sep)`. */
  function Find(s: string, sep: string): (r: int)
    ensures r == -1 ==> forall i :: !OccursAt(s, sep, i)
    ensures r != -1 ==> OccursAt(s, sep, r) && forall i :: 0 <= i < r ==> !OccursAt(s, sep, i)
  {
    var r := FindFrom(s, sep, 0);
    assert r != -1 ==> OccursAt(s, sep, r);
    r
  }

  /** Python's `s.split(sep)` for a non-empty separator: the pieces between
      the non-overlapping occurrences of `sep`, scanning left to right. */
  function Split(s: string, sep: string): (parts: seq<string>)
    requires |sep| > 0
    ensures |parts| >= 1
    decreases |s|
  {
    var i := Find(s, sep);
    if i == -1 then [s] else [s[..i]] + Split(s[i + |sep|..], sep)
  }

  /** Python's `sep.join(parts)`. */
  function Join(parts: seq<string>, sep: string): string
  {
    if |parts| == 0 then []
    else if |parts| == 1 then parts[0]
    else parts[0] + sep + Join(parts[1..], sep)
  }

  /** The URL extraction at main.py line 96. */
  function ExtractUrl(style: string): (r: Result<string>)
    ensures r.Err? <==> Find(style, UrlOpen) == -1
    ensures r.Err? ==> r.error == IndexError
  {
    var parts := Split(style, UrlOpen);
    if |parts| < 2 then Err(IndexError) else Ok(Split(parts[1], UrlClose)[0])
  }

  // ---------------------------------------------------------------------
  // Occurrences in slices

  lemma OccursInPrefix(s: string, sep: string, n: nat, q: int)
    requires n <= |s|
    ensures OccursAt(s[..n], sep, q) <==> (OccursAt(s, sep, q) && q + |sep| <= n)
  {
    if 0 <= q && q + |sep| <= n {
      assert s[..n][q..q + |sep|] == s[q..q + |sep|];
    }
  }

  lemma OccursInSuffix(s: string, sep: string, m: nat, q: int)
    requires m <= |s|
    ensures OccursAt(s[m..], sep, q) <==> (OccursAt(s, sep, m + q) && 0 <= q)
  {
    if 0 <= q && q + |sep| <= |s| - m {
      assert s[m..][q..q + |sep|] == s[m + q..m + q + |sep|];
    }
  }

  /** The first piece of a split is the text before the first separator. */
  lemma SplitHead(s: string, sep: string)
    requires |sep| > 0
    ensures var i := Find(s, sep);
            Split(s, sep)[0] == if i == -1 then s else s[..i]
  {
  }

  // ---------------------------------------------------------------------
  // Properties of Split

  /** Joining the pieces of a split with its separator gives back the string. */
  lemma {:induction false} SplitJoin(s: string, sep: string)
    requires |sep| > 0
    ensures Join(Split(s, sep), sep) == s
    decreases |s|
  {
    var i := Find(s, sep);
    if i != -1 {
      var rest := s[i + |sep|..];
      var tail := Split(rest, sep);
      SplitJoin(rest, sep);
      assert Split(s, sep) == [s[..i]] + tail;
      assert Join([s[..i]] + tail, sep) == s[..i] + sep + Join(tail, sep) by {
        assert ([s[..i]] + tail)[1..] == tail;
      }
      assert s[i..i + |sep|] == sep;
      assert s == s[..i] + s[i..i + |sep|] + rest;
    }
  }

  /** No piece of a split contains the separator. */
  lemma {:induction false} SplitPiecesFree(s: string, sep: string, k: nat)
    requires |sep| > 0
    requires k < |Split(s, sep)|
    ensures !Contains(Split(s, sep)[k], sep)
    decreases |s|
  {
    var i := Find(s, sep);
    if i == -1 {
    } else if k == 0 {
      if Contains(s[..i], sep) {
        var q :| OccursAt(s[..i], sep, q);
        OccursInPrefix(s, sep, i, q);
        assert false;
      }
    } else {
      var rest := s[i + |sep|..];
      assert Split(s, sep)[k] == Split(rest, sep)[k - 1];
      SplitPiecesFree(rest, sep, k - 1);
    }
  }

  // ---------------------------------------------------------------------
  // Properties of ExtractUrl

  /** A `")` cannot end where a `url("` begins. */
  lemma CloseNeverStraddlesOpen(t: string, d: int)
    requires OccursAt(t, UrlOpen, d + 1)
    ensures !OccursAt(t, UrlClose, d)
  {
    assert t[d + 1] == t[d + 1..d + 1 + |UrlOpen|][0] == 'u';
    if 0 <= d && d + |UrlClose| <= |t| {
      assert t[d..d + |UrlClose|][1] == t[d + 1];
    }
  }

  /** The text that the second split keeps of what follows the first `url("`:
      cut at the next `url("`, then at the first `")`. */
  function UrlBody(rest: string): (u: string)
  {
    Split(Split(rest, UrlOpen)[0], UrlClose)[0]
  }

  /** `UrlBody(rest)` is the longest prefix of `rest` in which neither
      `url("` nor `")` begins. */
  lemma UrlBodyMeaning(rest: string)
    ensures var u := UrlBody(rest);
            && |u| <= |rest| && u == rest[..|u|]
            && (forall d :: 0 <= d < |u| ==> !OccursAt(rest, UrlOpen, d) && !OccursAt(rest, UrlClose, d))
            && (|u| == |rest| || OccursAt(rest, UrlOpen, |u|) || OccursAt(rest, UrlClose, |u|))
  {
    SplitHead(rest, UrlOpen);
    var j := Find(rest, UrlOpen);
    var seg := if j == -1 then rest else rest[..j];
    SplitHead(seg, UrlClose);
    var k := Find(seg, UrlClose);
    var u := if k == -1 then seg else seg[..k];
    assert UrlBody(rest) == u;
    forall d | 0 <= d < |u|
      ensures !OccursAt(rest, UrlOpen, d) && !OccursAt(rest, UrlClose, d)
    {
      if j != -1 && d + |UrlClose| <= j {
        OccursInPrefix(rest, UrlClose, j, d);
      }
      if j != -1 && d + 1 == j {
        CloseNeverStraddlesOpen(rest, d);
      }
    }
    if k != -1 && j != -1 {
      OccursInPrefix(rest, UrlClose, j, k);
    }
  }

  /** What `ExtractUrl` returns, stated on the style string itself: the text
      that starts right after the first `url("` and runs up to the first
      following position where `url("` or `")` begins, or to the end. */
  lemma ExtractUrlMeaning(style: string)
    requires Contains(style, UrlOpen)
    ensures ExtractUrl(style).Ok?
    ensures var u := ExtractUrl(style).value;
            var i := Find(style, UrlOpen);
            var p := i + |UrlOpen| + |u|;
            && OccursAt(style, UrlOpen, i)
            && (forall q :: 0 <= q < i ==> !OccursAt(style, UrlOpen, q))
            && p <= |style|
            && u == style[i + |UrlOpen|..p]
            && (forall q :: i + |UrlOpen| <= q < p ==>
                  !OccursAt(style, UrlOpen, q) && !OccursAt(style, UrlClose, q))
            && (p == |style| || OccursAt(style, UrlOpen, p) || OccursAt(style, UrlClose, p))
  {
    var i := Find(style, UrlOpen);
    assert i != -1 by {
      var w :| OccursAt(style, UrlOpen, w);
    }
    var b := i + |UrlOpen|;
    var rest := style[b..];
    var u := UrlBody(rest);
    ExtractUrlTakesBody(style);
    UrlBodyMeaning(rest);
    var p := b + |u|;
    assert u == style[b..p];
    NoDelimiterShifted(style, b, |u|);
    OccursInSuffix(style, UrlOpen, b, |u|);
    OccursInSuffix(style, UrlClose, b, |u|);
  }

  /** A stretch of `s[b..]` free of both delimiters is free of them in `s`. */
  lemma NoDelimiterShifted(s: string, b: nat, n: nat)
    requires b + n <= |s|
    requires forall d :: 0 <= d < n ==> !OccursAt(s[b..], UrlOpen, d) && !OccursAt(s[b..], UrlClose, d)
    ensures forall q :: b <= q < b + n ==> !OccursAt(s, UrlOpen, q) && !OccursAt(s, UrlClose, q)
  {
    forall q | b <= q < b + n
      ensures !OccursAt(s, UrlOpen, q) && !OccursAt(s, UrlClose, q)
    {
      OccursInSuffix(s, UrlOpen, b, q - b);
      OccursInSuffix(s, UrlClose, b, q - b);
    }
  }

  /** Once a `url("` is present, the second piece of the first split is the
      part of what follows the first `url("` that runs to the next one. */
  lemma ExtractUrlTakesBody(style: string)
    requires Find(style, UrlOpen) != -1
    ensures ExtractUrl(style) == Ok(UrlBody(style[Find(style, UrlOpen) + |UrlOpen|..]))
  {
    var rest := style[Find(style, UrlOpen) + |UrlOpen|..];
    SplitHead(rest, UrlOpen);
    assert Split(style, UrlOpen)[1] == Split(rest, UrlOpen)[0];
  }

  /** Indexing the split with `[1]` raises exactly when the style holds no
      `url("` at all. */
  lemma ExtractUrlFails(style: string)
    ensures ExtractUrl(style).Err? <==> !Contains(style, UrlOpen)
    ensures ExtractUrl(style).Err? ==> ExtractUrl(style).error == IndexError
  {
    var i := Find(style, UrlOpen);
    if i != -1 {
      assert OccursAt(style, UrlOpen, i);
    }
  }

  /** The extracted URL never contains `")` or `url("`. */
  lemma ExtractedUrlIsClean(style: string)
    requires ExtractUrl(style).Ok?
    ensures !Contains(ExtractUrl(style).value, UrlClose)
    ensures !Contains(ExtractUrl(style).value, UrlOpen)
  {
    ExtractUrlMeaning(style);
    var u := ExtractUrl(style).value;
    var i := Find(style, UrlOpen);
    var b := i + |UrlOpen|;
    var p := b + |u|;
    assert u == style[b..][..|u|];
    forall sep, q | (sep == UrlClose || sep == UrlOpen) && OccursAt(u, sep, q)
      ensures false
    {
      OccursInPrefix(style[b..], sep, |u|, q);
      OccursInSuffix(style, sep, b, q);
    }
  }
}
