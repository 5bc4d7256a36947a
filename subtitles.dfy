/** The subtitle text helpers of server/libraryManager.js: newline normalisation, SRT to WebVTT
    conversion, the WEBVTT header, the rejection of payloads that are not subtitles, and the language
    a file-name hint names. */
module Subtitles {
  import opened Wrappers
  import opened Text

  const Bom: char := '\U{FEFF}'
  const VttHeader: string := "WEBVTT\n\n"

  /** `.replace(/^﻿/, '')` */
  function StripBom(s: string): (r: string)
    ensures s == r || s == [Bom] + r
    ensures |r| < |s| <==> s != [] && s[0] == Bom
  {
    if s != [] && s[0] == Bom then s[1..] else s
  }

  /** One leading byte order mark is removed, the rest is kept as it is. */
  lemma StripBomOnce(t: string)
    ensures StripBom([Bom] + t) == t
    ensures t == [] || t[0] != Bom ==> StripBom(t) == t
  {
    assert ([Bom] + t)[1..] == t;
  }

  // ----- newlines -----

  /** `.replace(/\r\n/g, '\n')` */
  function ReplaceCrLf(s: string): (r: string)
    ensures |r| <= |s|
    ensures s != [] ==> r != []
    ensures forall c :: c in r ==> c in s
    decreases |s|
  {
    if s == [] then []
    else if |s| >= 2 && s[0] == '\r' && s[1] == '\n' then "\n" + ReplaceCrLf(s[2..])
    else [s[0]] + ReplaceCrLf(s[1..])
  }

  /** `.replace(/\r\n/g, '\n').replace(/\r/g, '\n')`: every line ends with a bare LF. */
  function NormalizeNewlines(s: string): (r: string)
    ensures '\r' !in r
    ensures s != [] ==> r != []
    ensures forall c :: c in r ==> c == '\n' || c in s
  {
    ReplaceChar(ReplaceCrLf(s), '\r', '\n')
  }

  lemma {:induction false} ReplaceCrLfWithoutCr(s: string)
    requires '\r' !in s
    ensures ReplaceCrLf(s) == s
    decreases |s|
  {
    if s != [] {
      ReplaceCrLfWithoutCr(s[1..]);
    }
  }

  /** Text without CR is left as it is. */
  lemma NormalizeWithoutCr(s: string)
    requires '\r' !in s
    ensures NormalizeNewlines(s) == s
  {
    ReplaceCrLfWithoutCr(s);
  }

  /** Normalising twice is normalising once. */
  lemma NormalizeIdempotent(s: string)
    ensures NormalizeNewlines(NormalizeNewlines(s)) == NormalizeNewlines(s)
  {
    NormalizeWithoutCr(NormalizeNewlines(s));
  }

  lemma {:induction false} ReplaceCrLfAppend(a: string, b: string)
    requires a == [] || a[|a| - 1] != '\r' || b == [] || b[0] != '\n'
    ensures ReplaceCrLf(a + b) == ReplaceCrLf(a) + ReplaceCrLf(b)
    decreases |a|, 1
  {
    if a == [] {
      assert a + b == b;
    } else if |a| >= 2 && a[0] == '\r' && a[1] == '\n' {
      ReplaceCrLfPair(a, b);
      ReplaceCrLfStep("\n", a[2..], b, a + b, a);
    } else {
      ReplaceCrLfSingle(a, b);
      ReplaceCrLfStep([a[0]], a[1..], b, a + b, a);
    }
  }

  /** The induction step of ReplaceCrLfAppend once the first step of both sides is known. */
  lemma {:induction false} ReplaceCrLfStep(head: string, rest: string, b: string, ab: string, a: string)
    requires |rest| < |a| && (rest == [] || rest[|rest| - 1] != '\r' || b == [] || b[0] != '\n')
    requires ReplaceCrLf(ab) == head + ReplaceCrLf(rest + b) && ReplaceCrLf(a) == head + ReplaceCrLf(rest)
    ensures ReplaceCrLf(ab) == ReplaceCrLf(a) + ReplaceCrLf(b)
    decreases |a|, 0
  {
    ReplaceCrLfAppend(rest, b);
  }

  /** A CR LF pair at the front of a + b is the one at the front of a. */
  lemma ReplaceCrLfPair(a: string, b: string)
    requires |a| >= 2 && a[0] == '\r' && a[1] == '\n'
    ensures ReplaceCrLf(a + b) == "\n" + ReplaceCrLf(a[2..] + b)
    ensures ReplaceCrLf(a) == "\n" + ReplaceCrLf(a[2..])
  {
    var ab := a + b;
    assert ab[0] == '\r' && ab[1] == '\n' && ab[2..] == a[2..] + b;
  }

  /** Without a CR LF pair at its front, a + b loses no character to the first step. */
  lemma ReplaceCrLfSingle(a: string, b: string)
    requires a != [] && !(|a| >= 2 && a[0] == '\r' && a[1] == '\n')
    requires a[|a| - 1] != '\r' || b == [] || b[0] != '\n'
    ensures ReplaceCrLf(a + b) == [a[0]] + ReplaceCrLf(a[1..] + b)
    ensures ReplaceCrLf(a) == [a[0]] + ReplaceCrLf(a[1..])
  {
    var ab := a + b;
    assert ab[0] == a[0] && ab[1..] == a[1..] + b;
    if |a| == 1 && |ab| >= 2 { assert ab[1] == b[0]; }
    if |a| >= 2 { assert ab[1] == a[1]; }
  }

  /** Normalisation works piece by piece unless a CR ends one piece and an LF starts the next. */
  lemma NormalizeAppend(a: string, b: string)
    requires a == [] || a[|a| - 1] != '\r' || b == [] || b[0] != '\n'
    ensures NormalizeNewlines(a + b) == NormalizeNewlines(a) + NormalizeNewlines(b)
  {
    ReplaceCrLfAppend(a, b);
    var x, y := ReplaceCrLf(a), ReplaceCrLf(b);
    assert ReplaceChar(x + y, '\r', '\n') == ReplaceChar(x, '\r', '\n') + ReplaceChar(y, '\r', '\n');
  }

  /** The first character of normalised text: a CR becomes LF, anything else stays. */
  lemma NormalizeFirst(s: string)
    requires s != []
    ensures NormalizeNewlines(s)[0] == if s[0] == '\r' then '\n' else s[0]
  {
  }

  // ----- srt to vtt -----

  /** A cue timing line has its decimal commas turned into points; other lines stay. */
  function CueLine(line: string): (r: string)
    ensures |r| == |line|
    ensures Contains(line, "-->") ==> ',' !in r && forall i :: 0 <= i < |line| ==> r[i] == (if line[i] == ',' then '.' else line[i])
    ensures !Contains(line, "-->") ==> r == line
  {
    if Contains(line, "-->") then ReplaceChar(line, ',', '.') else line
  }

  function CueLines(lines: seq<string>): (r: seq<string>)
    ensures |r| == |lines| && forall i :: 0 <= i < |lines| ==> r[i] == CueLine(lines[i])
  {
    seq(|lines|, i requires 0 <= i < |lines| => CueLine(lines[i]))
  }

  /** convertSrtToVtt: the header, then the BOM-less, LF-normalised lines with cue timings rewritten. */
  function ConvertSrtToVtt(content: string): (r: string)
    ensures StartsWith(r, VttHeader)
  {
    var lines := Split(NormalizeNewlines(StripBom(content)), '\n');
    var r := VttHeader + Join(CueLines(lines), "\n");
    assert r[..|VttHeader|] == VttHeader;
    r
  }

  /** The converted text is the header followed by exactly one output line per input line (after BOM
      removal and newline normalisation), each the cue-rewritten input line; there is no CR in it. */
  lemma ConvertSrtToVttLines(content: string)
    ensures var r := ConvertSrtToVtt(content); var lines := Split(NormalizeNewlines(StripBom(content)), '\n');
      StartsWith(r, VttHeader) && '\r' !in r
      && Split(r[|VttHeader|..], '\n') == CueLines(lines)
      && forall i :: 0 <= i < |lines| ==> Split(r[|VttHeader|..], '\n')[i] == CueLine(lines[i])
  {
    var n := NormalizeNewlines(StripBom(content));
    var lines := Split(n, '\n');
    var out := CueLines(lines);
    var r := ConvertSrtToVtt(content);
    assert r[|VttHeader|..] == Join(out, "\n");
    assert r[..|VttHeader|] == VttHeader;
    forall i | 0 <= i < |out| ensures '\n' !in out[i] && '\r' !in out[i] {
      assert forall c :: c in lines[i] ==> c in n by {
        JoinSplit(n, '\n');
        PieceInJoin(lines, i, '\n');
      }
    }
    SplitJoin(out, '\n');
    JoinChars(out, "\n");
  }

  /** A character of a piece occurs in the join. */
  lemma {:induction false} PieceInJoin(parts: seq<string>, i: nat, sep: char)
    requires i < |parts|
    ensures forall c :: c in parts[i] ==> c in Join(parts, [sep])
    decreases |parts|
  {
    if |parts| > 1 {
      var rest := Join(parts[1..], [sep]);
      assert Join(parts, [sep]) == parts[0] + [sep] + rest;
      if i > 0 {
        PieceInJoin(parts[1..], i - 1, sep);
      }
    }
  }

  /** Every character of a join comes from a piece or the separator. */
  lemma {:induction false} JoinChars(parts: seq<string>, sep: string)
    ensures forall c :: c in Join(parts, sep) ==> c in sep || exists i :: 0 <= i < |parts| && c in parts[i]
    decreases |parts|
  {
    if |parts| > 1 {
      JoinChars(parts[1..], sep);
      forall c | c in Join(parts, sep) ensures c in sep || exists i :: 0 <= i < |parts| && c in parts[i] {
        assert Join(parts, sep) == parts[0] + sep + Join(parts[1..], sep);
        if c !in parts[0] && c !in sep {
          var i :| 0 <= i < |parts[1..]| && c in parts[1..][i];
          assert c in parts[i + 1];
        }
      }
    } else if |parts| == 1 {
      assert Join(parts, sep) == parts[0];
    }
  }

  // ----- the WEBVTT header -----

  /** ensureVttContent: text whose first visible characters (after a BOM and white space) are WEBVTT
      is only newline-normalised; other text gets the header in front. */
  function EnsureVttContent(content: string): (r: string)
    ensures '\r' !in r && r != []
    ensures StartsWith(JsTrimStart(StripBom(content)), "WEBVTT") ==> r == NormalizeNewlines(content)
    ensures !StartsWith(JsTrimStart(StripBom(content)), "WEBVTT") ==> r == VttHeader + NormalizeNewlines(content)
  {
    if content == "" then VttHeader
    else if StartsWith(JsTrimStart(StripBom(content)), "WEBVTT") then NormalizeNewlines(content)
    else VttHeader + NormalizeNewlines(content)
  }

  lemma {:induction false} TrimLeftAfterSpaces(w: string, t: string)
    requires forall i :: 0 <= i < |w| ==> IsJsSpace(w[i])
    requires t == [] || !IsJsSpace(t[0])
    ensures TrimLeft(w + t, IsJsSpace) == t
    decreases |w|
  {
    if w != [] {
      assert (w + t)[1..] == w[1..] + t;
      TrimLeftAfterSpaces(w[1..], t);
    } else {
      assert w + t == t;
    }
  }

  /** Trimming white space at the start commutes with newline normalisation (CR and LF are white space). */
  lemma TrimStartNormalize(x: string)
    ensures JsTrimStart(NormalizeNewlines(x)) == NormalizeNewlines(JsTrimStart(x))
  {
    var t := TrimLeft(x, IsJsSpace);
    var w := x[..|x| - |t|];
    assert x == w + t;
    NormalizeAppend(w, t);
    var nw := NormalizeNewlines(w);
    var nt := NormalizeNewlines(t);
    assert forall i :: 0 <= i < |nw| ==> IsJsSpace(nw[i]) by {
      forall i | 0 <= i < |nw| ensures IsJsSpace(nw[i]) {
        assert nw[i] in nw;
        if nw[i] != '\n' {
          var j :| 0 <= j < |w| && w[j] == nw[i];
        }
      }
    }
    if t != [] {
      NormalizeFirst(t);
    }
    TrimLeftAfterSpaces(nw, nt);
  }

  /** Normalised text that starts with WEBVTT came from text that did. */
  lemma StartsWebvttNormalize(t: string)
    requires StartsWith(t, "WEBVTT")
    ensures StartsWith(NormalizeNewlines(t), "WEBVTT")
  {
    assert t == "WEBVTT" + t[6..];
    NormalizeAppend("WEBVTT", t[6..]);
    NormalizeWithoutCr("WEBVTT");
  }

  /** BOM removal commutes with newline normalisation. */
  lemma StripBomNormalize(c: string)
    ensures StripBom(NormalizeNewlines(c)) == NormalizeNewlines(StripBom(c))
  {
    if c != [] {
      NormalizeFirst(c);
      if c[0] == Bom {
        assert c == [Bom] + c[1..];
        NormalizeAppend([Bom], c[1..]);
        NormalizeWithoutCr([Bom]);
      }
    }
  }

  /** Adding the header is idempotent: text that went through ensureVttContent is left as it is. */
  lemma EnsureVttIdempotent(content: string)
    ensures EnsureVttContent(EnsureVttContent(content)) == EnsureVttContent(content)
  {
    var r := EnsureVttContent(content);
    if content == "" || !StartsWith(JsTrimStart(StripBom(content)), "WEBVTT") {
      var n := if content == "" then "" else NormalizeNewlines(content);
      assert r == VttHeader + n by {
        if content == "" { assert VttHeader + "" == VttHeader; }
      }
      TrimLeftNoop(r, IsJsSpace);
      assert StripBom(r) == r;
      assert r[..6] == "WEBVTT";
      NormalizeAppend(VttHeader, n);
      NormalizeWithoutCr(VttHeader);
      if content != "" {
        NormalizeIdempotent(content);
      }
    } else {
      StripBomNormalize(content);
      TrimStartNormalize(StripBom(content));
      StartsWebvttNormalize(JsTrimStart(StripBom(content)));
      NormalizeIdempotent(content);
    }
  }

  // ----- payloads that are not subtitles -----

  /** `.replace(/^webvtt\s*\/i, '')` */
  function DropWebvttHeader(s: string): (r: string)
    ensures |r| <= |s| && r == s[|s| - |r|..]
    ensures |s| >= 6 && Lower(s[..6]) == "webvtt" ==>
      |r| <= |s| - 6 && (r == [] || !IsJsSpace(r[0])) && forall i :: 6 <= i < |s| - |r| ==> IsJsSpace(s[i])
    ensures !(|s| >= 6 && Lower(s[..6]) == "webvtt") ==> r == s
  {
    if |s| >= 6 && Lower(s[..6]) == "webvtt" then TrimLeft(s[6..], IsJsSpace) else s
  }

  /** The text the checks look at: the trimmed text without a leading WEBVTT header, or the trimmed
      text when nothing else is left. */
  function Target(trimmed: string): string {
    var withoutHeader := JsTrim(DropWebvttHeader(trimmed));
    if withoutHeader != "" then withoutHeader else trimmed
  }

  /** Text that is an error message or an HTML page rather than a subtitle (compared in lower case). */
  predicate ErrorOrMarkup(lower: string) {
    StartsWith(lower, "an error occured") || StartsWith(lower, "an error occurred") || StartsWith(lower, "error")
    || StartsWith(lower, "<html") || StartsWith(lower, "<!doctype")
  }

  /** Text that starts like JSON and parses as a JSON object or array. `parsesAsJson` stands for
      JSON.parse succeeding; every value it yields from text starting with '{' or '[' is an object. */
  predicate IsJsonPayload(target: string, parsesAsJson: string -> bool) {
    var lower := Lower(target);
    (StartsWith(lower, "{") || StartsWith(lower, "[")) && parsesAsJson(target)
  }

  /** sanitizeSubtitlePayload: None for empty or blank text, error messages, HTML and JSON; otherwise
      the text without its BOM and with normalised newlines, not trimmed. */
  function SanitizeSubtitlePayload(content: string, parsesAsJson: string -> bool): (r: Option<string>)
    ensures content == "" ==> r.None?
    ensures r.Some? ==> r.value == NormalizeNewlines(StripBom(content)) && JsTrim(r.value) != "" && '\r' !in r.value
  {
    if content == "" then None
    else
      var normalized := NormalizeNewlines(StripBom(content));
      var trimmed := JsTrim(normalized);
      if trimmed == "" then None
      else
        var target := Target(trimmed);
        if ErrorOrMarkup(Lower(target)) || IsJsonPayload(target, parsesAsJson) then None
        else Some(normalized)
  }

  /** A payload is rejected exactly when it is blank, or its text (past a WEBVTT header) reads as an
      error message, HTML or JSON. */
  lemma SanitizeRejects(content: string, parsesAsJson: string -> bool)
    ensures var trimmed := JsTrim(NormalizeNewlines(StripBom(content)));
      SanitizeSubtitlePayload(content, parsesAsJson).None?
      <==> trimmed == "" || ErrorOrMarkup(Lower(Target(trimmed))) || IsJsonPayload(Target(trimmed), parsesAsJson)
  {
    if content == "" {
      assert StripBom(content) == "";
    }
  }

  /** Text starting with another character does not start with p. */
  lemma NotStartsWith(s: string, p: string)
    requires s != [] && p != [] && s[0] != p[0]
    ensures !StartsWith(s, p)
  {
  }

  /** Trimmed text is its own trim. */
  lemma TrimmedIsTrim(t: string)
    requires t == JsTrim(t) || (t != [] && !IsJsSpace(t[0]) && !IsJsSpace(t[|t| - 1]))
    ensures JsTrim(t) == t
  {
    if t != [] && !IsJsSpace(t[0]) && !IsJsSpace(t[|t| - 1]) {
      TrimLeftNoop(t, IsJsSpace);
      TrimRightNoop(t, IsJsSpace);
    }
  }

  /** A subtitle whose first visible character is a digit (an SRT cue number) is always kept. */
  lemma SanitizeKeepsCues(content: string, parsesAsJson: string -> bool)
    requires var t := JsTrim(NormalizeNewlines(StripBom(content))); t != [] && IsDigit(t[0])
    ensures SanitizeSubtitlePayload(content, parsesAsJson) == Some(NormalizeNewlines(StripBom(content)))
  {
    var n := NormalizeNewlines(StripBom(content));
    var t := JsTrim(n);
    assert content != "";
    var tl := TrimLeft(n, IsJsSpace);
    assert t == TrimRight(tl, IsJsSpace);
    assert t[0] == tl[0];
    TrimmedIsTrim(t);
    DigitTextAccepted(t, parsesAsJson);
  }

  /** Trimmed text starting with a digit is its own target and is neither an error, markup nor JSON. */
  lemma DigitTextAccepted(t: string, parsesAsJson: string -> bool)
    requires t != [] && IsDigit(t[0]) && JsTrim(t) == t
    ensures Target(t) == t && !ErrorOrMarkup(Lower(t)) && !IsJsonPayload(t, parsesAsJson)
  {
    assert DropWebvttHeader(t) == t by {
      if |t| >= 6 {
        NotStartsWith(Lower(t[..6]), "webvtt");
        assert Lower(t[..6]) != "webvtt";
      }
    }
    var lower := Lower(t);
    assert lower[0] == t[0];
    NotStartsWith(lower, "an error occured");
    NotStartsWith(lower, "an error occurred");
    NotStartsWith(lower, "error");
    NotStartsWith(lower, "<html");
    NotStartsWith(lower, "<!doctype");
    NotStartsWith(lower, "{");
    NotStartsWith(lower, "[");
  }

  /** The converted text starts with the header and has no CR. */
  lemma SrtStarts(s: string)
    ensures var r := ConvertSrtToVtt(s); '\r' !in r && StartsWith(JsTrimStart(r), "WEBVTT")
  {
    ConvertSrtToVttLines(s);
    var r := ConvertSrtToVtt(s);
    TrimLeftNoop(r, IsJsSpace);
    assert r[..6] == "WEBVTT";
  }

  /** normalizeSubtitleToVtt: a sanitised payload made into WebVTT, by the header rule for 'vtt' and by
      conversion otherwise. */
  function NormalizeSubtitleToVtt(content: string, formatHint: string, parsesAsJson: string -> bool): (r: Option<string>)
    ensures r.None? <==> SanitizeSubtitlePayload(content, parsesAsJson).None?
    ensures r.Some? ==> '\r' !in r.value && StartsWith(JsTrimStart(r.value), "WEBVTT")
  {
    var sanitized := SanitizeSubtitlePayload(content, parsesAsJson);
    if sanitized.None? then None
    else if formatHint == "vtt" then
      VttStarts(sanitized.value);
      Some(EnsureVttContent(sanitized.value))
    else
      SrtStarts(sanitized.value);
      Some(ConvertSrtToVtt(sanitized.value))
  }

  /** A BOM is white space to trimStart, so removing it first changes nothing. */
  lemma TrimStartBom(s: string)
    ensures JsTrimStart(StripBom(s)) == JsTrimStart(s)
  {
  }

  /** The visible text of ensureVttContent's result starts with WEBVTT. */
  lemma VttStarts(s: string)
    ensures StartsWith(JsTrimStart(EnsureVttContent(s)), "WEBVTT")
  {
    var r := EnsureVttContent(s);
    if s != [] && StartsWith(JsTrimStart(StripBom(s)), "WEBVTT") {
      TrimStartBom(s);
      TrimStartNormalize(s);
      StartsWebvttNormalize(JsTrimStart(s));
    } else {
      TrimLeftNoop(r, IsJsSpace);
      assert r[..6] == "WEBVTT";
    }
  }

  // ----- the language named by a hint -----

  /** A language code and its display label. */
  datatype Language = Language(code: string, caption: string)

  /** SUBTITLE_LANGUAGE_ALIASES */
  function Alias(key: string): (r: Option<Language>)
    ensures r.Some? ==> r.value in {Language("tr", "Türkçe"), Language("en", "İngilizce"),
                                    Language("es", "İspanyolca"), Language("de", "Almanca")}
    ensures key in {"tr", "en", "es", "de"} ==> r.Some? && r.value.code == key
    ensures |key| == 2 && r.Some? ==> r.value.code == key
  {
    if key in {"tr", "tur", "turkish", "tr-tr"} then Some(Language("tr", "Türkçe"))
    else if key in {"en", "eng", "english", "en-us", "en-gb"} then Some(Language("en", "İngilizce"))
    else if key in {"es", "spa", "es-es"} then Some(Language("es", "İspanyolca"))
    else if key in {"de", "ger", "de-de"} then Some(Language("de", "Almanca"))
    else None
  }

  /** resolveSubtitleLanguageFromHint */
  function ResolveLanguage(hint: string): (r: Language)
    ensures hint == "" ==> r == Language("und", "Altyazı")
    ensures hint != "" && Alias(Lower(hint)).Some? ==> r == Alias(Lower(hint)).value
    ensures hint != "" && Alias(Lower(hint)).None? && |hint| == 2 ==> r == Language(Lower(hint), Upper(Lower(hint)))
    ensures hint != "" && Alias(Lower(hint)).None? && |hint| == 3 ==> r == Language(Lower(hint)[..2], Upper(Lower(hint)))
    ensures hint != "" && Alias(Lower(hint)).None? && |hint| != 2 && |hint| != 3 ==> r == Language("und", Upper(hint))
  {
    var normalized := Lower(hint);
    if normalized == "" then Language("und", "Altyazı")
    else match Alias(normalized)
      case Some(l) => l
      case None =>
        if |normalized| == 2 then Language(normalized, Upper(normalized))
        else if |normalized| == 3 then Language(normalized[..2], Upper(normalized))
        else Language("und", Upper(hint))
  }

  /** The code is always "und", one of the four alias codes, or two characters of the hint. */
  lemma ResolveLanguageCode(hint: string)
    ensures var c := ResolveLanguage(hint).code;
      c in {"und", "tr", "en", "es", "de"} || (|c| == 2 && |hint| in {2, 3} && c == Lower(hint)[..2])
  {
    var n := Lower(hint);
    if n != "" && Alias(n).None? && |n| == 2 {
      assert n[..2] == n;
    }
  }
}
