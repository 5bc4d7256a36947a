/** The naming helpers of server/libraryManager.js: slugs, runtimes, media URLs, the title and year
    read from a file name, the language hint of a subtitle file and the ids given to subtitle tracks. */
module MediaNames {
  import opened Wrappers
  import opened Text
  import opened Magnet
  import Paths

  // ----- slugs -----

  predicate IsSlugChar(c: char) { IsAsciiLower(c) || IsDigit(c) }
  predicate IsDash(c: char) { c == '-' }
  predicate NotSlugChar(c: char) { !IsSlugChar(c) }

  /** Letters, digits and dashes, never two dashes in a row. */
  predicate DashText(s: string) {
    (forall i :: 0 <= i < |s| ==> IsSlugChar(s[i]) || s[i] == '-')
    && (forall i :: 0 <= i < |s| - 1 ==> !(s[i] == '-' && s[i + 1] == '-'))
  }

  lemma DashTextSlice(s: string, a: nat, b: nat)
    requires DashText(s) && a <= b <= |s|
    ensures DashText(s[a..b])
  {
    var t := s[a..b];
    assert forall i :: 0 <= i < |t| ==> t[i] == s[a + i];
  }

  /** The characters of a slug: a-z, 0-9 and single dashes, never a dash first, at most 120 long. */
  predicate IsSlug(r: string) {
    |r| <= 120 && DashText(r) && (r == [] || r[0] != '-')
  }

  /** The combining diacritical marks U+0300 to U+036F, which slugify removes. */
  predicate IsCombiningMark(c: char) { '\U{0300}' <= c <= '\U{036F}' }

  function RemoveMarks(s: string): (r: string)
    ensures forall c :: c in r ==> c in s && !IsCombiningMark(c)
    decreases |s|
  {
    if s == [] then [] else (if IsCombiningMark(s[0]) then [] else [s[0]]) + RemoveMarks(s[1..])
  }

  /** slugify (without the NFD decomposition, which is the identity on text without precomposed letters). */
  function Slugify(input: string): (r: string)
    ensures IsSlug(r)
  {
    var dashed := CollapseRuns(Lower(RemoveMarks(input)), NotSlugChar, '-');
    var trimmed := TrimRight(TrimLeft(dashed, IsDash), IsDash);
    DashedText(input);
    TrimmedSlug(dashed);
    if |trimmed| <= 120 then trimmed else trimmed[..120]
  }

  /** The collapse leaves letters, digits and single dashes. */
  lemma DashedText(input: string)
    ensures DashText(CollapseRuns(Lower(RemoveMarks(input)), NotSlugChar, '-'))
  {
  }

  /** Trimming the dashes at both ends and cutting to 120 characters gives a slug. */
  lemma TrimmedSlug(dashed: string)
    requires DashText(dashed)
    ensures var trimmed := TrimRight(TrimLeft(dashed, IsDash), IsDash);
      IsSlug(if |trimmed| <= 120 then trimmed else trimmed[..120])
  {
    var inner := TrimLeft(dashed, IsDash);
    DashTextSlice(dashed, |dashed| - |inner|, |dashed|);
    var trimmed := TrimRight(inner, IsDash);
    DashTextSlice(inner, 0, |trimmed|);
    var r := if |trimmed| <= 120 then trimmed else trimmed[..120];
    DashTextSlice(trimmed, 0, |r|);
    assert r == trimmed[..|r|];
  }

  /** A slug of a slug-shaped text without dashes at either end is the text itself. */
  lemma SlugifySlug(s: string)
    requires IsSlug(s) && (s == [] || s[|s| - 1] != '-')
    ensures Slugify(s) == s
  {
    RemoveMarksNone(s);
    LowerSlug(s);
    CollapseNone(s);
    TrimLeftNoop(s, IsDash);
    TrimRightNoop(s, IsDash);
  }

  lemma LowerSlug(s: string)
    requires DashText(s)
    ensures Lower(s) == s
  {
  }

  lemma {:induction false} RemoveMarksNone(s: string)
    requires DashText(s)
    ensures RemoveMarks(s) == s
    decreases |s|
  {
    if s != [] {
      DashTextSlice(s, 1, |s|);
      RemoveMarksNone(s[1..]);
      assert !IsCombiningMark(s[0]);
    }
  }

  /** Collapsing dash runs does nothing to text without double dashes. */
  lemma {:induction false} CollapseNone(s: string)
    requires DashText(s)
    ensures CollapseRuns(s, NotSlugChar, '-') == s
    decreases |s|
  {
    if s != [] {
      DashTextSlice(s, 1, |s|);
      CollapseNone(s[1..]);
      CollapseFirst(s);
      assert s == [s[0]] + s[1..];
    }
  }

  /** On dash text, the first step of the collapse keeps the first character and moves on by one. */
  lemma CollapseFirst(s: string)
    requires s != [] && DashText(s)
    ensures CollapseRuns(s, NotSlugChar, '-') == [s[0]] + CollapseRuns(s[1..], NotSlugChar, '-')
  {
    if s[0] == '-' {
      if |s| > 1 {
        assert s[1] != '-';
        assert IsSlugChar(s[1]);
      }
      CollapseRunsSingle(s, NotSlugChar, '-');
    } else {
      assert IsSlugChar(s[0]);
    }
  }

  // ----- runtimes -----

  /** JavaScript's remainder, truncated toward zero. */
  function JsRem(a: int, b: int): (r: int)
    requires b > 0
    ensures a >= 0 ==> r == a % b
    ensures a < 0 ==> r <= 0
  {
    if a >= 0 then a % b else -((-a) % b)
  }

  /** The pieces "h sa" and "m dk", each only when positive, joined by a space. */
  function RuntimeText(hrs: int, mins: int): string {
    var parts := (if hrs > 0 then [IntToString(hrs) + " sa"] else []) + (if mins > 0 then [IntToString(mins) + " dk"] else []);
    Join(parts, " ")
  }

  /** formatRuntime for a whole number of minutes; None stands for a value that is not a number. */
  function FormatRuntime(minutes: Option<int>): (r: string)
    ensures minutes.None? || minutes.value == 0 ==> r == ""
    ensures minutes.Some? && minutes.value > 0 ==>
      exists h: nat, m: nat :: m < 60 && 60 * h + m == minutes.value && r == RuntimeText(h, m) && r != ""
    ensures minutes.Some? && minutes.value < 0 ==> r == IntToString(minutes.value) + " dk"
  {
    if minutes.None? || minutes.value == 0 then ""
    else
      var m := minutes.value;
      var hrs := m / 60;
      var mins := JsRem(m, 60);
      var text := RuntimeText(hrs, mins);
      assert m > 0 ==> text != "" by {
        if m > 0 && hrs == 0 {
          assert mins == m;
        }
      }
      assert m < 0 ==> text == "" by {
        if m < 0 { assert hrs < 0; }
      }
      if text != "" then text else IntToString(m) + " dk"
  }

  /** The two numbers of a positive runtime give the minutes back. */
  lemma RuntimeRoundTrip(minutes: nat)
    requires minutes > 0
    ensures FormatRuntime(Some(minutes)) == RuntimeText(minutes / 60, minutes % 60)
    ensures 60 * (minutes / 60) + minutes % 60 == minutes && minutes % 60 < 60
  {
  }

  // ----- media URLs -----

  /** encodeMediaPath: "/media/" and the percent-encoded segments of the path. */
  function EncodeMediaPath(relativePath: string): (r: string)
    ensures StartsWith(r, "/media/")
  {
    var segments := Split(relativePath, '/');
    "/media/" + Join(EncodeAll(segments), "/")
  }

  function EncodeAll(ss: seq<string>): (r: seq<string>)
    ensures |r| == |ss| && forall i :: 0 <= i < |ss| ==> r[i] == EncodeURIComponent(ss[i])
  {
    seq(|ss|, i requires 0 <= i < |ss| => EncodeURIComponent(ss[i]))
  }

  /** The URL keeps one encoded segment per segment of the path. */
  lemma EncodeMediaPathSegments(relativePath: string)
    ensures var r := EncodeMediaPath(relativePath);
      Split(r[7..], '/') == EncodeAll(Split(relativePath, '/'))
  {
    var enc := EncodeAll(Split(relativePath, '/'));
    forall i | 0 <= i < |enc| ensures '/' !in enc[i] {
      forall k | 0 <= k < |enc[i]| ensures enc[i][k] != '/' {
        assert IsUnreserved(enc[i][k]) || enc[i][k] == '%' || IsUpperHex(enc[i][k]);
      }
    }
    SplitJoin(enc, '/');
    assert EncodeMediaPath(relativePath)[7..] == Join(enc, "/");
  }

  // ----- file names -----

  /** path.parse(p).name for a base name: the text before the last '.', unless there is none, it is the
      first character, or the base name is "..". */
  function StripExtension(base: string): (r: string)
    ensures |r| <= |base| && r == base[..|r|]
  {
    if '.' !in base || base == ".." then base
    else
      var k := LastIndex(base, '.');
      if k == 0 then base else base[..k]
  }

  /** `\w` */
  predicate IsWordChar(c: char) { IsAsciiLower(c) || IsAsciiUpper(c) || IsDigit(c) || c == '_' }

  /** `\b` at position i of s. */
  predicate BoundaryAt(s: string, i: int) {
    0 <= i <= |s| && ((i > 0 && IsWordChar(s[i - 1])) != (i < |s| && IsWordChar(s[i])))
  }

  /** `\b(19|20)\d{2}\b` matches at position i. */
  predicate YearAt(s: string, i: int) {
    0 <= i && i + 4 <= |s| && (s[i..i + 2] == "19" || s[i..i + 2] == "20") && IsDigit(s[i + 2]) && IsDigit(s[i + 3])
    && BoundaryAt(s, i) && BoundaryAt(s, i + 4)
  }

  /** The first year token at or after position from. */
  function FindYear(s: string, from: nat): (r: Option<nat>)
    requires from <= |s|
    ensures r.Some? ==> from <= r.value && YearAt(s, r.value) && forall j :: from <= j < r.value ==> !YearAt(s, j)
    ensures r.None? ==> forall j :: from <= j <= |s| ==> !YearAt(s, j)
    decreases |s| - from
  {
    if YearAt(s, from) then Some(from)
    else if from == |s| then None
    else FindYear(s, from + 1)
  }

  /** The release and encoding tags that parseFileName removes from a title. */
  const QualityTags: seq<string> :=
    ["480p", "720p", "1080p", "2160p", "4k", "hdr", "bluray", "webrip", "web-dl", "remux", "x264", "x265", "h264", "h265"]

  /** The length of a tag that matches, ignoring case, as a whole word at position i. */
  function TagAt(s: string, i: nat): (r: Option<nat>)
    requires i <= |s|
    ensures r.Some? ==> 0 < r.value && i + r.value <= |s|
    ensures r.Some? ==> exists t :: t in QualityTags && |t| == r.value && Lower(s[i..i + |t|]) == t
  {
    TagFrom(s, i, 0)
  }

  function TagFrom(s: string, i: nat, k: nat): (r: Option<nat>)
    requires i <= |s| && k <= |QualityTags|
    ensures r.Some? ==> 0 < r.value && i + r.value <= |s|
    ensures r.Some? ==> exists t :: t in QualityTags && |t| == r.value && Lower(s[i..i + |t|]) == t
    decreases |QualityTags| - k
  {
    if k == |QualityTags| then None
    else
      var t := QualityTags[k];
      if i + |t| <= |s| && Lower(s[i..i + |t|]) == t && BoundaryAt(s, i) && BoundaryAt(s, i + |t|) then
        assert t in QualityTags;
        Some(|t|)
      else TagFrom(s, i, k + 1)
  }

  /** The global, case-insensitive replace of the tags by a space, from position i on. */
  function RemoveTags(s: string, i: nat): (r: string)
    requires i <= |s|
    ensures |r| <= |s| - i
    ensures forall c :: c in r ==> c == ' ' || c in s
    decreases |s| - i
  {
    if i == |s| then []
    else match TagAt(s, i)
      case Some(n) => " " + RemoveTags(s, i + n)
      case None => [s[i]] + RemoveTags(s, i + 1)
  }

  predicate IsDotOrUnderscore(c: char) { c == '.' || c == '_' }

  /** What parseFileName returns. */
  datatype ParsedName = ParsedName(id: string, title: string, year: string, rawTitle: string)

  /** No two c in a row. */
  predicate NoDouble(s: string, c: char) {
    forall i :: 0 <= i < |s| - 1 ==> !(s[i] == c && s[i + 1] == c)
  }

  lemma NoDoubleSlice(s: string, c: char, a: nat, b: nat)
    requires NoDouble(s, c) && a <= b <= |s|
    ensures NoDouble(s[a..b], c)
    ensures forall x :: x in s[a..b] ==> x in s
  {
    var t := s[a..b];
    assert forall i :: 0 <= i < |t| ==> t[i] == s[a + i];
  }

  /** `.replace(/[._]+/g, ' ').replace(/\s+/g, ' ').trim()` */
  function CleanName(baseName: string): (r: string)
    ensures '.' !in r && '_' !in r
    ensures NoDouble(r, ' ')
    ensures r == [] || (!IsJsSpace(r[0]) && !IsJsSpace(r[|r| - 1]))
  {
    var single := CollapseRuns(CollapseRuns(baseName, IsDotOrUnderscore, ' '), IsJsSpace, ' ');
    CollapsedName(baseName);
    TrimmedName(single);
    JsTrim(single)
  }

  /** After both collapses there are no dots, no underscores and no double spaces. */
  lemma CollapsedName(baseName: string)
    ensures var single := CollapseRuns(CollapseRuns(baseName, IsDotOrUnderscore, ' '), IsJsSpace, ' ');
      NoDouble(single, ' ') && '.' !in single && '_' !in single
  {
    var spaced := CollapseRuns(baseName, IsDotOrUnderscore, ' ');
    assert '.' !in spaced && '_' !in spaced;
    var single := CollapseRuns(spaced, IsJsSpace, ' ');
    assert NoDouble(single, ' ');
  }

  /** Trimming only drops characters, keeps the text free of double spaces and leaves no white space
      at either end. */
  lemma TrimmedName(single: string)
    requires NoDouble(single, ' ')
    ensures var r := JsTrim(single);
      (forall x :: x in r ==> x in single) && NoDouble(r, ' ') && (r == [] || (!IsJsSpace(r[0]) && !IsJsSpace(r[|r| - 1])))
  {
    var left := TrimLeft(single, IsJsSpace);
    NoDoubleSlice(single, ' ', |single| - |left|, |single|);
    var r := TrimRight(left, IsJsSpace);
    NoDoubleSlice(left, ' ', 0, |r|);
  }

  /** The year of a cleaned name: its first year token, or "". */
  function YearText(cleaned: string): (y: string)
    ensures y == "" <==> FindYear(cleaned, 0).None?
    ensures y != "" ==> exists i :: YearAt(cleaned, i) && y == cleaned[i..i + 4] && forall j :: 0 <= j < i ==> !YearAt(cleaned, j)
  {
    match FindYear(cleaned, 0)
    case Some(i) => cleaned[i..i + 4]
    case None => ""
  }

  /** The title of a cleaned name: without its first year token and its release tags, white space
      collapsed and trimmed; the cleaned name, then the base name, when nothing is left. */
  function TitleText(cleaned: string, baseName: string): (r: string)
    ensures r == "" <==> cleaned == "" && baseName == ""
    ensures r == cleaned || r == baseName || (NoDouble(r, ' ') && !IsJsSpace(r[0]) && !IsJsSpace(r[|r| - 1]))
  {
    var withoutYear := match FindYear(cleaned, 0)
      case Some(i) => cleaned[..i] + " " + cleaned[i + 4..]
      case None => cleaned;
    var collapsed := CollapseRuns(RemoveTags(withoutYear, 0), IsJsSpace, ' ');
    var sanitized := JsTrim(collapsed);
    TrimmedName(collapsed);
    assert cleaned == "" ==> sanitized == "" by {
      if cleaned == "" { assert withoutYear == ""; }
    }
    if sanitized != "" then sanitized else if cleaned != "" then cleaned else baseName
  }

  /** parseFileName: the title and year read from a file name, and the slug that identifies the video. */
  function ParseFileName(relativePath: string): (r: ParsedName)
    ensures IsSlug(r.id)
    ensures '.' !in r.rawTitle && '_' !in r.rawTitle && NoDouble(r.rawTitle, ' ')
    ensures r.year == "" <==> FindYear(r.rawTitle, 0).None?
    ensures r.year != "" ==> exists i :: YearAt(r.rawTitle, i) && r.year == r.rawTitle[i..i + 4] && forall j :: 0 <= j < i ==> !YearAt(r.rawTitle, j)
    ensures r.id == Slugify(if r.year != "" then r.title + "-" + r.year else r.title)
  {
    var baseName := StripExtension(Paths.Basename(relativePath));
    var cleaned := CleanName(baseName);
    var year := YearText(cleaned);
    var title := TitleText(cleaned, baseName);
    ParsedName(Slugify(if year != "" then title + "-" + year else title), title, year, cleaned)
  }

  // ----- subtitle files -----

  predicate IsHintSeparator(c: char) { c == '.' || c == '_' || c == '-' }

  /** The text of s before its first character in the class (all of s when there is none). */
  function TakeUntil(s: string, cls: char -> bool): (r: string)
    ensures |r| <= |s| && r == s[..|r|]
    ensures forall i :: 0 <= i < |r| ==> !cls(r[i])
    ensures |r| == |s| || cls(s[|r|])
    decreases |s|
  {
    if s == [] || cls(s[0]) then [] else [s[0]] + TakeUntil(s[1..], cls)
  }

  /** The language hint of a subtitle file named candidateBase beside the video baseName: what follows
      the video name, past leading separators, up to the next separator. Since the remainder does not
      start with a separator, the first non-empty piece of its split is exactly that prefix. */
  function SubtitleHint(candidateBase: string, baseName: string): (r: string)
    requires |baseName| <= |candidateBase|
    ensures r == [] || !IsHintSeparator(r[0])
    ensures forall i :: 0 <= i < |r| ==> !IsHintSeparator(r[i])
  {
    var remainder := TrimLeft(candidateBase[|baseName|..], IsHintSeparator);
    TakeUntil(remainder, IsHintSeparator)
  }

  /** The id a subtitle track starts from: the slug of "<code>-<file>", else the slug of the file name,
      else "subtitle-<n>" with n the number of tracks taken so far plus one. */
  function RawSubtitleId(code: string, candidateBase: string, count: nat): (r: string)
    ensures r != ""
  {
    var withCode := Slugify((if code != "" then code else "und") + "-" + candidateBase);
    if withCode != "" then withCode
    else
      var plain := Slugify(candidateBase);
      if plain != "" then plain else "subtitle-" + NatToString(count + 1)
  }

  function MaxLength(ids: seq<string>): (n: nat)
    ensures forall i :: 0 <= i < |ids| ==> |ids[i]| <= n
  {
    if ids == [] then 0
    else
      var m := MaxLength(ids[1..]);
      assert forall i :: 1 <= i < |ids| ==> ids[i] == ids[1..][i - 1];
      if |ids[0]| > m then |ids[0]| else m
  }

  lemma StartsWithExtend(s: string, p: string, x: string)
    requires StartsWith(s, p)
    ensures StartsWith(s + x, p)
  {
    assert (s + x)[..|p|] == s[..|p|];
  }

  /** The inner loop: the suffix is appended to a taken id until the id is free. */
  method FreshId(rawId: string, ids: seq<string>, usedIds: set<string>, suffix: string) returns (id: string)
    requires forall x :: x in usedIds <==> x in ids
    requires suffix != ""
    ensures id !in usedIds && StartsWith(id, rawId)
    ensures forall i :: 0 <= i < |ids| ==> ids[i] != id
  {
    id := rawId;
    assert StartsWith(id, rawId);
    while id in usedIds
      invariant StartsWith(id, rawId)
      decreases MaxLength(ids) - |id|
    {
      assert id in ids;
      var j :| 0 <= j < |ids| && ids[j] == id;
      StartsWithExtend(id, rawId, suffix);
      id := id + suffix;
    }
  }

  predicate Distinct(ids: seq<string>) {
    forall i, j :: 0 <= i < j < |ids| ==> ids[i] != ids[j]
  }

  /** The id starts with the raw id of the k-th file. */
  predicate StartsRaw(id: string, file: (string, string), k: nat) {
    StartsWith(id, RawSubtitleId(file.0, file.1, k))
  }

  /** Each id starts with the raw id of its file. */
  predicate StartRaw(ids: seq<string>, files: seq<(string, string)>)
    requires |ids| <= |files|
  {
    forall k :: 0 <= k < |ids| ==> StartsRaw(ids[k], files[k], k)
  }

  lemma DistinctAppend(ids: seq<string>, id: string)
    requires Distinct(ids) && id !in ids
    ensures Distinct(ids + [id])
  {
    var ids' := ids + [id];
    forall i, j | 0 <= i < j < |ids'| ensures ids'[i] != ids'[j] {
      assert ids'[i] == ids[i];
      if j < |ids| {
        assert ids'[j] == ids[j];
      }
    }
  }

  lemma AppendId(ids: seq<string>, files: seq<(string, string)>, id: string)
    requires |ids| < |files| && Distinct(ids) && StartRaw(ids, files)
    requires id !in ids && StartsRaw(id, files[|ids|], |ids|)
    ensures Distinct(ids + [id]) && StartRaw(ids + [id], files)
  {
    DistinctAppend(ids, id);
    var ids' := ids + [id];
    forall k | 0 <= k < |ids'| ensures StartsRaw(ids'[k], files[k], k) {
      if k < |ids| {
        assert ids'[k] == ids[k];
      } else {
        assert ids'[k] == id && k == |ids|;
      }
    }
  }

  /** The id loop of ensureSubtitles, for the accepted subtitle files in order, each given as the code
      of its language and its base name: a taken id gets "-<n>" appended until it is free. */
  method AssignSubtitleIds(files: seq<(string, string)>) returns (ids: seq<string>)
    ensures |ids| == |files|
    ensures Distinct(ids)
    ensures StartRaw(ids, files)
  {
    var usedIds: set<string> := {};
    ids := [];
    while |ids| < |files|
      invariant |ids| <= |files|
      invariant forall x :: x in usedIds <==> x in ids
      invariant Distinct(ids) && StartRaw(ids, files)
    {
      var rawId := RawSubtitleId(files[|ids|].0, files[|ids|].1, |ids|);
      var id := FreshId(rawId, ids, usedIds, "-" + NatToString(|ids| + 1));
      assert StartsRaw(id, files[|ids|], |ids|);
      AppendId(ids, files, id);
      usedIds := usedIds + {id};
      ids := ids + [id];
    }
  }
}
