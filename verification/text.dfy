/** The parts of Ruby's String, File and URI behaviour that the program relies
    on, over `string` (`seq<char>`). Case mapping is ASCII only. */
module Text {
  import opened Wrappers

  /** Characters matched by `\s` in a Ruby regular expression. */
  predicate IsSpace(c: char) {
    c == ' ' || c == '\t' || c == '\n' || c == '\U{0B}' || c == '\U{0C}' || c == '\r'
  }

  /** Characters removed by `String#strip`: `\s` plus NUL. */
  predicate IsStripSpace(c: char) {
    IsSpace(c) || c == '\0'
  }

  /** `String#downcase` on one character (ASCII letters only). */
  function Lower(c: char): (r: char)
    ensures 'A' <= c <= 'Z' ==> r != c && 'a' <= r <= 'z'
    ensures !('A' <= c <= 'Z') ==> r == c
  {
    if 'A' <= c <= 'Z' then (c as int + 32) as char else c
  }

  function Downcase(s: string): (r: string)
    ensures |r| == |s|
    ensures forall i :: 0 <= i < |s| ==> r[i] == Lower(s[i])
  {
    seq(|s|, i requires 0 <= i < |s| => Lower(s[i]))
  }

  // ---------------------------------------------------------------------
  // Substrings

  /** `sub` occurs in `s` starting at index `i`. */
  predicate OccursAt(s: string, sub: string, i: int) {
    0 <= i && i + |sub| <= |s| && s[i..i + |sub|] == sub
  }

  /** `String#include?` */
  predicate Contains(s: string, sub: string) {
    exists i :: 0 <= i <= |s| - |sub| && OccursAt(s, sub, i)
  }

  /** `String#start_with?` */
  predicate StartsWith(s: string, prefix: string) {
    |prefix| <= |s| && s[..|prefix|] == prefix
  }

  /** `String#end_with?` */
  predicate EndsWith(s: string, suffix: string) {
    |suffix| <= |s| && s[|s| - |suffix|..] == suffix
  }

  /** The first index at or after `from` where `sub` occurs. */
  function FindFrom(s: string, sub: string, from: nat): (r: Option<nat>)
    ensures r.Some? ==> from <= r.value && OccursAt(s, sub, r.value)
    ensures r.Some? ==> forall k :: from <= k < r.value ==> !OccursAt(s, sub, k)
    ensures r.None? ==> forall k :: from <= k ==> !OccursAt(s, sub, k)
    decreases |s| - from
  {
    if from + |sub| > |s| then None
    else if s[from..from + |sub|] == sub then Some(from)
    else FindFrom(s, sub, from + 1)
  }

  lemma ContainsIffFound(s: string, sub: string)
    ensures Contains(s, sub) <==> FindFrom(s, sub, 0).Some?
  {
    var r := FindFrom(s, sub, 0);
    if r.Some? {
      assert OccursAt(s, sub, r.value);
    }
  }

  /** A string lacking one of the characters of `sub` does not contain it. */
  lemma MissingCharNotContained(s: string, sub: string, k: nat)
    requires k < |sub| && sub[k] !in s
    ensures !Contains(s, sub)
  {
  }

  /** `String#tr(from, to)` for single characters: every `from` becomes `to`. */
  function ReplaceChar(s: string, from: char, to: char): (r: string)
    ensures |r| == |s|
    ensures forall i :: 0 <= i < |s| ==> r[i] == (if s[i] == from then to else s[i])
  {
    seq(|s|, i requires 0 <= i < |s| => if s[i] == from then to else s[i])
  }

  // ---------------------------------------------------------------------
  // String#strip

  function LStrip(s: string): (r: string)
    ensures |r| <= |s| && r == s[|s| - |r|..]
    ensures forall i :: 0 <= i < |s| - |r| ==> IsStripSpace(s[i])
    ensures r == [] || !IsStripSpace(r[0])
  {
    if |s| > 0 && IsStripSpace(s[0]) then LStrip(s[1..]) else s
  }

  function RStrip(s: string): (r: string)
    ensures |r| <= |s| && r == s[..|r|]
    ensures forall i :: |r| <= i < |s| ==> IsStripSpace(s[i])
    ensures r == [] || !IsStripSpace(r[|r| - 1])
  {
    if |s| > 0 && IsStripSpace(s[|s| - 1]) then RStrip(s[..|s| - 1]) else s
  }

  /** `String#strip`: `s` is `r` with a run of whitespace on either side, and
      `r` neither starts nor ends with whitespace. */
  function Strip(s: string): (r: string)
    ensures TrimmedFrom(s, r)
    ensures r == [] || (!IsStripSpace(r[0]) && !IsStripSpace(r[|r| - 1]))
    ensures r == [] <==> forall i :: 0 <= i < |s| ==> IsStripSpace(s[i])
  {
    var l := LStrip(s);
    var r := RStrip(l);
    StripCut(s, l, r);
    r
  }

  /** `r` is `s` less a run of whitespace on either side. */
  predicate TrimmedFrom(s: string, r: string) {
    exists a, b ::
      && 0 <= a <= b <= |s| && r == s[a..b]
      && (forall i :: 0 <= i < a ==> IsStripSpace(s[i]))
      && (forall i :: b <= i < |s| ==> IsStripSpace(s[i]))
  }

  /** Where `strip` cuts: after the leading run that `LStrip` drops and
      before the trailing run that `RStrip` drops. */
  lemma StripCut(s: string, l: string, r: string)
    requires |l| <= |s| && l == s[|s| - |l|..]
    requires forall i :: 0 <= i < |s| - |l| ==> IsStripSpace(s[i])
    requires l == [] || !IsStripSpace(l[0])
    requires |r| <= |l| && r == l[..|r|]
    requires forall i :: |r| <= i < |l| ==> IsStripSpace(l[i])
    requires r == [] || !IsStripSpace(r[|r| - 1])
    ensures r == [] || (!IsStripSpace(r[0]) && !IsStripSpace(r[|r| - 1]))
    ensures var a := |s| - |l|;
      && 0 <= a <= a + |r| <= |s| && r == s[a..a + |r|]
      && (forall i :: 0 <= i < a ==> IsStripSpace(s[i]))
      && (forall i :: a + |r| <= i < |s| ==> IsStripSpace(s[i]))
    ensures r == [] <==> forall i :: 0 <= i < |s| ==> IsStripSpace(s[i])
    ensures TrimmedFrom(s, r)
  {
    var a := |s| - |l|;
    SliceOfSuffix(s, a, |r|);
    forall i | a + |r| <= i < |s|
      ensures IsStripSpace(s[i])
    {
      assert s[i] == l[i - a];
    }
    if |l| > 0 {
      assert s[a] == l[0];
    }
    if |r| > 0 {
      assert r[0] == l[0];
    }
  }

  lemma SliceOfSuffix(s: string, a: nat, n: nat)
    requires a + n <= |s|
    ensures s[a..][..n] == s[a..a + n]
  {
  }

  // ---------------------------------------------------------------------
  // File.basename and File.join

  function TrimTrailingSlashes(s: string): (r: string)
    ensures |r| <= |s| && r == s[..|r|]
    ensures r == [] || r[|r| - 1] != '/'
    ensures forall i :: |r| <= i < |s| ==> s[i] == '/'
  {
    if |s| > 0 && s[|s| - 1] == '/' then TrimTrailingSlashes(s[..|s| - 1]) else s
  }

  /** The characters after the last '/'. */
  function LastSegment(s: string): (r: string)
    ensures |r| <= |s| && r == s[|s| - |r|..]
    ensures '/' !in r
    ensures |r| < |s| ==> s[|s| - |r| - 1] == '/'
  {
    if |s| == 0 || s[|s| - 1] == '/' then [] else LastSegment(s[..|s| - 1]) + [s[|s| - 1]]
  }

  /** `File.basename(path)`: the last component after trailing separators
      are removed; "/" for a path of separators only. */
  function Basename(path: string): (r: string)
    ensures r == "/" || '/' !in r
    ensures |r| == 0 <==> |path| == 0
    ensures '/' !in path ==> r == path
  {
    var t := TrimTrailingSlashes(path);
    if |t| == 0 then (if |path| == 0 then "" else "/")
    else
      var r := LastSegment(t);
      assert t[|t| - 1] != '/';
      if '/' in path then r else SlashFreeIsOwnSegment(path); r
  }

  /** The base name is "/" or made of the path's own characters. */
  lemma BasenameChars(path: string)
    ensures Basename(path) == "/" || forall c :: c in Basename(path) ==> c in path
  {
    var t := TrimTrailingSlashes(path);
    var r := Basename(path);
    if |t| > 0 && r != "/" {
      forall c | c in r
        ensures c in path
      {
        var i :| 0 <= i < |r| && r[i] == c;
        assert c == t[|t| - |r| + i] == path[|t| - |r| + i];
      }
    }
  }

  lemma {:induction false} SlashFreeIsOwnSegment(s: string)
    requires '/' !in s
    ensures LastSegment(s) == s
    ensures TrimTrailingSlashes(s) == s
  {
    if |s| > 0 {
      assert s[..|s| - 1] + [s[|s| - 1]] == s;
      SlashFreeIsOwnSegment(s[..|s| - 1]);
    }
  }

  /** Taking a base name twice changes nothing. */
  lemma BasenameIdempotent(path: string)
    ensures Basename(Basename(path)) == Basename(path)
  {
    var r := Basename(path);
    if r == "/" {
      assert TrimTrailingSlashes(r) == [];
    } else {
      SlashFreeIsOwnSegment(r);
    }
  }

  /** `File.join(dir, name)`: one separator between the two parts. */
  function Join(dir: string, name: string): (r: string)
    ensures EndsWith(r, name) || (StartsWith(name, "/") && EndsWith(r, name[1..]))
    ensures StartsWith(r, dir)
  {
    var dirSlash := |dir| > 0 && dir[|dir| - 1] == '/';
    var nameSlash := |name| > 0 && name[0] == '/';
    var r :=
      if dirSlash && nameSlash then dir + name[1..]
      else if dirSlash || nameSlash then dir + name
      else dir + "/" + name;
    assert r[..|dir|] == dir;
    r
  }

  /** A name that does not start with '/' is kept whole at the end. */
  lemma JoinKeepsName(dir: string, name: string)
    requires name == [] || name[0] != '/'
    ensures StartsWith(Join(dir, name), dir) && EndsWith(Join(dir, name), name)
  {
    assert !StartsWith(name, "/");
  }

  // ---------------------------------------------------------------------
  // URIs (absolute "scheme://authority/path?query#fragment" references)

  /** The characters of `s` before the first one in `stops`. */
  function TakeUntil(s: string, stops: set<char>): (r: string)
    ensures |r| <= |s| && r == s[..|r|]
    ensures forall c :: c in r ==> c !in stops
    ensures |r| < |s| ==> s[|r|] in stops
  {
    if |s| == 0 || s[0] in stops then [] else [s[0]] + TakeUntil(s[1..], stops)
  }

  /** What follows the authority of an absolute URI: everything from the first
      '/' after "://"; a reference without "://" is returned whole. */
  function AfterAuthority(url: string): (r: string)
    ensures |r| <= |url| && r == url[|url| - |r|..]
    ensures FindFrom(url, "://", 0).Some? ==> r == [] || r[0] == '/'
  {
    match FindFrom(url, "://", 0)
    case None => url
    case Some(i) =>
      var rest := url[i + 3..];
      var host := TakeUntil(rest, {'/'});
      rest[|host|..]
  }

  /** `URI.parse(url).path`: the path, without query or fragment. */
  function UrlPath(url: string): (r: string)
    ensures '?' !in r && '#' !in r
    ensures FindFrom(url, "://", 0).Some? ==> r == [] || r[0] == '/'
  {
    TakeUntil(AfterAuthority(url), {'?', '#'})
  }

  /** `URI.parse(url).request_uri`: path and query, always starting with '/'. */
  function RequestUri(url: string): (r: string)
    ensures |r| > 0 && r[0] == '/'
    ensures '#' !in r
  {
    var t := TakeUntil(AfterAuthority(url), {'#'});
    if |t| == 0 || t[0] != '/' then "/" + t else t
  }

  /** Nothing to stop at: the whole string is taken. */
  lemma {:induction false} TakeUntilAbsent(s: string, stops: set<char>)
    requires forall c :: c in s ==> c !in stops
    ensures TakeUntil(s, stops) == s
    decreases |s|
  {
    if |s| > 0 {
      assert forall c :: c in s[1..] ==> c in s;
      TakeUntilAbsent(s[1..], stops);
      assert [s[0]] + s[1..] == s;
    }
  }

  /** A stretch free of stop characters is taken whole, and the scan goes on
      in what follows it. */
  lemma {:induction false} TakeUntilPast(x: string, y: string, stops: set<char>)
    requires forall c :: c in x ==> c !in stops
    ensures TakeUntil(x + y, stops) == x + TakeUntil(y, stops)
    decreases |x|
  {
    if |x| > 0 {
      var xy := x + y;
      assert xy[0] == x[0] && xy[1..] == x[1..] + y;
      assert x[0] in x;
      assert TakeUntil(xy, stops) == [x[0]] + TakeUntil(x[1..] + y, stops);
      assert forall c :: c in x[1..] ==> c in x;
      TakeUntilPast(x[1..], y, stops);
      assert [x[0]] + (x[1..] + TakeUntil(y, stops)) == x + TakeUntil(y, stops);
    } else {
      assert x + y == y;
    }
  }

  /** The first "://" of a URL whose scheme holds no ':' ends the scheme. */
  lemma SchemeEnd(scheme: string, rest: string)
    requires ':' !in scheme
    ensures FindFrom(scheme + "://" + rest, "://", 0) == Some(|scheme|)
  {
    var url := scheme + "://" + rest;
    var n := |scheme|;
    assert url[n..n + 3] == "://";
    forall k | 0 <= k < n
      ensures !OccursAt(url, "://", k)
    {
      assert url[k] == scheme[k];
    }
    assert OccursAt(url, "://", n);
    FindFirst(url, "://", n);
  }

  /** An occurrence with none before it is the one the search finds. */
  lemma FindFirst(s: string, sub: string, i: nat)
    requires OccursAt(s, sub, i) && forall k :: 0 <= k < i ==> !OccursAt(s, sub, k)
    ensures FindFrom(s, sub, 0) == Some(i)
  {
  }

  /** For an absolute URL `scheme://host/path` whose host holds no '/', '?'
      or '#' and whose path holds no '#', the request URI is the path. */
  lemma RequestUriOfAbsolute(scheme: string, host: string, path: string)
    requires ':' !in scheme
    requires '/' !in host && '?' !in host && '#' !in host
    requires |path| > 0 && path[0] == '/' && '#' !in path
    ensures RequestUri(scheme + "://" + host + path) == path
  {
    var url := scheme + "://" + host + path;
    var n := |scheme|;
    SchemeEnd(scheme, host + path);
    assert url == scheme + "://" + (host + path);
    var rest := url[n + 3..];
    assert rest == host + path;
    TakeUntilPast(host, path, {'/'});
    assert TakeUntil(path, {'/'}) == [];
    assert host + [] == host;
    assert AfterAuthority(url) == path;
    TakeUntilAbsent(path, {'#'});
  }

  // ---------------------------------------------------------------------
  // String#<=> (code-point lexicographic order)

  /** `a < b` on Ruby strings: the first differing character decides, and a
      proper prefix is smaller. */
  predicate LexLess(a: string, b: string)
    decreases |a|
  {
    if |a| == 0 then |b| > 0
    else if |b| == 0 then false
    else a[0] < b[0] || (a[0] == b[0] && LexLess(a[1..], b[1..]))
  }

  /** Comparing two strings with equal-length heads: the heads decide unless
      they are equal, in which case the tails do. */
  lemma {:induction false} LexLessConcat(a: string, b: string, c: string, d: string)
    requires |a| == |b|
    ensures LexLess(a + c, b + d) <==> LexLess(a, b) || (a == b && LexLess(c, d))
    decreases |a|
  {
    if |a| == 0 {
      assert a + c == c && b + d == d;
    } else {
      assert (a + c)[0] == a[0] && (a + c)[1..] == a[1..] + c;
      assert (b + d)[0] == b[0] && (b + d)[1..] == b[1..] + d;
      LexLessConcat(a[1..], b[1..], c, d);
      if a[0] == b[0] && a[1..] == b[1..] {
        assert a == b;
      }
    }
  }

  lemma LexLessIrreflexive(a: string)
    ensures !LexLess(a, a)
  {
  }
}
