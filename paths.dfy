/** The parts of Node's POSIX `path` module that server/torrentService.js uses: join, relative and
    basename. Paths are taken segment by segment; '.' and '..' segments are not interpreted. */
module Paths {
  import opened Text

  /** The non-empty strings of ss, in order. */
  function NonEmpty(ss: seq<string>): (r: seq<string>)
    ensures |r| <= |ss|
    ensures forall i :: 0 <= i < |r| ==> r[i] != "" && r[i] in ss
    ensures forall x :: x in r <==> x in ss && x != ""
    decreases |ss|
  {
    if ss == [] then [] else (if ss[0] == "" then [] else [ss[0]]) + NonEmpty(ss[1..])
  }

  lemma {:induction false} NonEmptyAppend(a: seq<string>, b: seq<string>)
    ensures NonEmpty(a + b) == NonEmpty(a) + NonEmpty(b)
    decreases |a|
  {
    if a != [] {
      assert (a + b)[1..] == a[1..] + b;
      NonEmptyAppend(a[1..], b);
    } else {
      assert a + b == b;
    }
  }

  /** The segments of a path: what lies between its separators, empty pieces (from a leading, trailing
      or doubled '/') dropped. */
  function Segments(p: string): (r: seq<string>)
    ensures forall i :: 0 <= i < |r| ==> r[i] != "" && '/' !in r[i]
  {
    var pieces := Split(p, '/');
    var r := NonEmpty(pieces);
    assert forall i :: 0 <= i < |r| ==> '/' !in r[i] by {
      forall i | 0 <= i < |r| ensures '/' !in r[i] {
        var j :| 0 <= j < |pieces| && pieces[j] == r[i];
      }
    }
    r
  }

  predicate IsAbsolute(p: string) { |p| > 0 && p[0] == '/' }

  /** The segments of path.resolve(p) with cwd as the working directory. */
  function ResolvedSegments(cwd: string, p: string): seq<string> {
    if IsAbsolute(p) then Segments(p) else Segments(cwd) + Segments(p)
  }

  /** The length of the longest common prefix of a and b. */
  function CommonPrefixLength(a: seq<string>, b: seq<string>): (n: nat)
    ensures n <= |a| && n <= |b| && a[..n] == b[..n]
    ensures n == |a| || n == |b| || a[n] != b[n]
    decreases |a|
  {
    if a == [] || b == [] || a[0] != b[0] then 0
    else
      var n := 1 + CommonPrefixLength(a[1..], b[1..]);
      assert a[..n] == [a[0]] + a[1..][..n - 1];
      assert b[..n] == [b[0]] + b[1..][..n - 1];
      n
  }

  /** path.relative(from, to): one '..' for each segment of `from` past the common prefix, then the rest of `to`. */
  function Relative(cwd: string, from: string, to: string): (r: string)
    ensures ResolvedSegments(cwd, from) == ResolvedSegments(cwd, to) ==> r == ""
  {
    var f := ResolvedSegments(cwd, from);
    var t := ResolvedSegments(cwd, to);
    var n := CommonPrefixLength(f, t);
    assert f == t ==> seq(|f| - n, _ => "..") + t[n..] == [];
    Join(seq(|f| - n, _ => "..") + t[n..], "/")
  }

  /** path.basename(p): the last segment, or "" when there is none. */
  function Basename(p: string): (r: string)
    ensures '/' !in r
  {
    var s := Segments(p);
    if s == [] then "" else s[|s| - 1]
  }

  /** path.join(a, b) for a non-empty b without separators. */
  function JoinPath(a: string, b: string): (r: string)
    ensures r != ""
    ensures IsAbsolute(a) <==> IsAbsolute(r)
    ensures IsAbsolute(a) || Segments(a) + Segments(b) != [] ==> Segments(r) == Segments(a) + Segments(b)
  {
    var segs := Segments(a) + Segments(b);
    var body := Join(segs, "/");
    SegmentsOfJoin(segs);
    if IsAbsolute(a) then "/" + body else if body == "" then "." else body
  }

  /** Segments without separators, joined by '/', read back as themselves, with or without a
      leading '/'; a relative join starts with its first segment. */
  lemma SegmentsOfJoin(segs: seq<string>)
    requires forall i :: 0 <= i < |segs| ==> segs[i] != "" && '/' !in segs[i]
    ensures segs != [] ==> Segments(Join(segs, "/")) == segs && !IsAbsolute(Join(segs, "/"))
    ensures Segments("/" + Join(segs, "/")) == segs
    ensures Join(segs, "/") == "" <==> segs == []
  {
    if segs != [] {
      SplitJoin(segs, '/');
      NonEmptyAll(segs);
      JoinStart(segs);
    }
    SplitAfterSlash(Join(segs, "/"));
    if segs == [] {
      assert Split("", '/') == [""];
    } else {
      assert ([""] + segs)[1..] == segs;
    }
  }

  /** A leading '/' adds an empty piece in front. */
  lemma SplitAfterSlash(body: string)
    ensures Split("/" + body, '/') == [""] + Split(body, '/')
  {
    var s := "/" + body;
    assert s[0] == '/';
    assert FirstIndex(s, '/') == 0;
    assert s[..0] == "" && s[1..] == body;
  }

  /** NonEmpty keeps a list with no empty string as it is. */
  lemma {:induction false} NonEmptyAll(ss: seq<string>)
    requires forall i :: 0 <= i < |ss| ==> ss[i] != ""
    ensures NonEmpty(ss) == ss
    decreases |ss|
  {
    if ss != [] {
      NonEmptyAll(ss[1..]);
    }
  }

  /** A join starts with its first piece. */
  lemma {:induction false} JoinStart(segs: seq<string>)
    requires segs != [] && segs[0] != ""
    ensures var j := Join(segs, "/"); |j| >= |segs[0]| && j[..|segs[0]|] == segs[0]
  {
    if |segs| > 1 {
      var j := Join(segs, "/");
      assert j == segs[0] + "/" + Join(segs[1..], "/");
    }
  }

  lemma {:induction false} CommonPrefixOfExtension(f: seq<string>, rest: seq<string>)
    ensures CommonPrefixLength(f, f + rest) == |f|
    decreases |f|
  {
    if f != [] {
      assert (f + rest)[0] == f[0];
      assert (f + rest)[1..] == f[1..] + rest;
      CommonPrefixOfExtension(f[1..], rest);
    }
  }

  /** A path below `from` is given relative to it by the segments it adds: a file directly inside the
      media directory is given by its own name, and the media directory itself by "". */
  lemma RelativeBelow(cwd: string, from: string, to: string, rest: seq<string>)
    requires IsAbsolute(from) && IsAbsolute(to)
    requires Segments(to) == Segments(from) + rest
    ensures Relative(cwd, from, to) == Join(rest, "/")
  {
    var f := Segments(from);
    CommonPrefixOfExtension(f, rest);
    assert (f + rest)[|f|..] == rest;
    assert seq(0, _ => "..") + rest == rest;
  }
}
