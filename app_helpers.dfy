/** The display helpers of js/app.js: clock and remaining-time texts, the start point of a card's
    preview clip, the subtitle track chosen when a video opens, provider names and the seeder and
    leecher counts of search results. */
module AppHelpers {
  import opened Wrappers
  import opened Text
  import opened JsNumbers

  // ----- formatTime -----

  /** Math.floor on a finite number. */
  function Floor(x: real): int {
    x.Floor
  }

  /** Math.trunc on a finite number. */
  function Trunc(x: real): (r: int)
    ensures x >= 0.0 ==> r == x.Floor
    ensures x < 0.0 ==> r == -((-x).Floor)
  {
    if x >= 0.0 then x.Floor else -((-x).Floor)
  }

  /** x % m for finite x and positive m: the remainder takes the sign of x. */
  function RealRem(x: real, m: real): real
    requires m > 0.0
  {
    x - m * Trunc(x / m) as real
  }

  /** formatTime: whole minutes, ':', and the whole seconds of the minute zero-padded to two
      digits; NaN and the infinities print as JavaScript prints them. */
  function FormatTime(seconds: Number): (r: string)
    ensures seconds.Finite? && seconds.v >= 0.0 ==> ClockShaped(r)
    ensures !seconds.Finite? ==> |r| >= 4 && r[|r| - 4..] == ":NaN"
  {
    match seconds
    case NaN => "NaN:NaN"
    case Infinity(negative) => (if negative then "-Infinity" else "Infinity") + ":NaN"
    case Finite(x) =>
      var m := IntToString(Floor(x / 60.0));
      var sec := PadStart2(IntToString(Floor(RealRem(x, 60.0))));
      assert x >= 0.0 ==> ClockShaped(m + ":" + sec) by {
        if x >= 0.0 { SecondsOfMinute(x); ClockShape(m, sec); }
      }
      m + ":" + sec
  }

  /** Ends in ':' and two digits. */
  predicate ClockShaped(r: string) {
    |r| >= 4 && r[|r| - 3] == ':' && AllDigits(r[|r| - 2..])
  }

  lemma ClockShape(m: string, sec: string)
    requires |m| >= 1 && |sec| == 2 && AllDigits(sec)
    ensures ClockShaped(m + ":" + sec)
  {
    var r := m + ":" + sec;
    assert r[|r| - 2..] == sec;
  }

  /** For a non-negative number of seconds, the seconds of the minute are below 60, so they pad to
      two digits, and the minutes are a non-negative whole number. */
  lemma SecondsOfMinute(x: real)
    requires x >= 0.0
    ensures var s := Floor(RealRem(x, 60.0)); 0 <= s < 60 && |PadStart2(IntToString(s))| == 2 && AllDigits(PadStart2(IntToString(s)))
    ensures Floor(x / 60.0) >= 0
  {
    var q := Trunc(x / 60.0);
    assert q as real <= x / 60.0 < q as real + 1.0;
    assert 0.0 <= RealRem(x, 60.0) < 60.0;
    var s := Floor(RealRem(x, 60.0));
    PadTwoDigits(s);
  }

  /** A number below 100 padded to two digits is two digits worth the number. */
  lemma PadTwoDigits(r: nat)
    requires r < 100
    ensures var p := PadStart2(NatToString(r)); |p| == 2 && AllDigits(p) && DigitsValue(p) == r
  {
    var d := NatToString(r);
    DigitsValueOfNatToString(r);
    if r < 10 {
      var p := "0" + d;
      assert p[..1] == "0";
      assert DigitsValue(p) == DigitsValue("0") * 10 + DigitValue(d[0]);
    }
  }

  lemma FloorOfQuotient(n: nat)
    ensures Floor(n as real / 60.0) == n / 60
    ensures Floor(RealRem(n as real, 60.0)) == n % 60
  {
    var q := n / 60;
    var r := n % 60;
    assert n == 60 * q + r;
    assert n as real / 60.0 == q as real + r as real / 60.0;
    assert (n as real / 60.0).Floor == q;
    assert RealRem(n as real, 60.0) == r as real;
  }

  /** The clock text of a whole number of seconds n reads back as n / 60 minutes and n % 60
      seconds, so 60 * minutes + seconds == n. */
  lemma FormatTimeRoundTrip(n: nat)
    ensures var parts := Split(FormatTime(Finite(n as real)), ':');
      |parts| == 2 && ParseInt(parts[0]) == Some(n / 60) && ParseInt(parts[1]) == Some(n % 60)
      && 60 * (n / 60) + n % 60 == n
  {
    FloorOfQuotient(n);
    var a := NatToString(n / 60);
    var b := PadStart2(NatToString(n % 60));
    assert FormatTime(Finite(n as real)) == a + ":" + b;
    PadTwoDigits(n % 60);
    assert ':' !in a by { forall i | 0 <= i < |a| ensures a[i] != ':' { assert IsDigit(a[i]); } }
    assert ':' !in b by { forall i | 0 <= i < |b| ensures b[i] != ':' { assert IsDigit(b[i]); } }
    assert Join([a, b], ":") == a + ":" + b;
    SplitJoin([a, b], ':');
    DigitsValueOfNatToString(n / 60);
    ParseIntOfDigits(a);
    ParseIntOfDigits(b);
  }

  /** The whole minutes and the whole seconds of the minute of a non-negative time are those of its
      whole seconds. */
  lemma FloorsOfTime(x: real)
    requires x >= 0.0
    ensures Floor(x / 60.0) == x.Floor / 60
    ensures Floor(RealRem(x, 60.0)) == x.Floor % 60
  {
    var n: nat := x.Floor;
    var q, r := n / 60, n % 60;
    var f := x - n as real;
    assert x / 60.0 == q as real + (r as real + f) / 60.0;
    assert 0.0 <= (r as real + f) / 60.0 < 1.0;
    assert Trunc(x / 60.0) == q;
    assert RealRem(x, 60.0) == r as real + f;
  }

  /** Math.floor drops the fraction before anything is printed: a non-negative time prints as its
      whole seconds do. */
  lemma FormatTimeOfFraction(x: real)
    requires x >= 0.0
    ensures FormatTime(Finite(x)) == FormatTime(Finite(x.Floor as real))
  {
    FloorsOfTime(x);
    FloorOfQuotient(x.Floor);
  }

  /** The clock text of any non-negative time x reads back as the whole minutes and the whole
      seconds of the minute of x: floor(x) / 60 and floor(x) % 60. */
  lemma FormatTimeRoundTripReal(x: real)
    requires x >= 0.0
    ensures var n := x.Floor; var parts := Split(FormatTime(Finite(x)), ':');
      |parts| == 2 && ParseInt(parts[0]) == Some(n / 60) && ParseInt(parts[1]) == Some(n % 60)
  {
    FormatTimeOfFraction(x);
    FormatTimeRoundTrip(x.Floor);
  }

  // ----- formatEta -----

  /** formatEta: "" unless the estimate is a positive finite number; otherwise, with the estimate
      rounded to whole seconds, hours and minutes, or minutes and seconds, or seconds alone. */
  function FormatEta(seconds: Number): (r: string)
    ensures r == "" <==> !(seconds.Finite? && seconds.v > 0.0)
  {
    if !seconds.Finite? || seconds.v <= 0.0 then ""
    else
      // Math.max(0, Math.round(seconds)): a positive estimate never rounds below 0.
      var totalSeconds: nat := Round(seconds.v);
      var hrs := totalSeconds / 3600;
      var mins := (totalSeconds % 3600) / 60;
      var secs := totalSeconds % 60;
      if hrs > 0 then NatToString(hrs) + " sa " + PadStart2(NatToString(mins)) + " dk"
      else if mins > 0 then NatToString(mins) + " dk " + PadStart2(NatToString(secs)) + " sn"
      else NatToString(secs) + " sn"
  }

  /** The units formatEta shows account for the rounded estimate T: an hour or more shows h and
      m with T within the minute after h:m:00 (the seconds are dropped); a minute or more shows m
      and s with 60 * m + s == T; less shows T seconds. */
  lemma FormatEtaUnits(seconds: Number)
    requires seconds.Finite? && seconds.v > 0.0
    ensures var t := Round(seconds.v); var r := FormatEta(seconds);
      t >= 0
      && (t >= 3600 ==> exists h: nat, m: nat :: (h >= 1 && m < 60 && 3600 * h + 60 * m <= t < 3600 * h + 60 * m + 60
            && r == NatToString(h) + " sa " + PadStart2(NatToString(m)) + " dk"))
      && (60 <= t < 3600 ==> exists m: nat, s: nat :: (1 <= m < 60 && s < 60 && 60 * m + s == t
            && r == NatToString(m) + " dk " + PadStart2(NatToString(s)) + " sn"))
      && (t < 60 ==> r == NatToString(t) + " sn")
  {
    var t := Round(seconds.v);
    assert t >= 0;
    var h := t / 3600;
    var m := (t % 3600) / 60;
    var s := t % 60;
    assert t == 3600 * h + t % 3600;
    assert t % 3600 == 60 * m + s;
    var r := FormatEta(seconds);
    if t >= 3600 {
      assert h >= 1 && m < 60 && 3600 * h + 60 * m <= t < 3600 * h + 60 * m + 60;
      assert r == NatToString(h) + " sa " + PadStart2(NatToString(m)) + " dk";
    } else if t >= 60 {
      assert h == 0 && m == t / 60 && 60 * m + s == t;
      assert r == NatToString(m) + " dk " + PadStart2(NatToString(s)) + " sn";
    }
  }

  // ----- getPreviewStartTime -----

  const PreviewStartSeconds: real := 180.0
  const PreviewShortFallback: real := 10.0
  const PreviewEndBuffer: real := 5.0

  /** getPreviewStartTime: 180 s in, or earlier for a short video so that the clip still plays. */
  function PreviewStartTime(duration: Number): (r: real)
    ensures 0.0 <= r <= PreviewStartSeconds
    ensures !(duration.Finite? && duration.v > 0.0) ==> r == PreviewStartSeconds
    ensures duration.Finite? && duration.v > 0.0 ==> r < duration.v
    ensures duration.Finite? && duration.v >= PreviewEndBuffer ==> r + PreviewEndBuffer <= duration.v
    ensures duration.Finite? && duration.v >= PreviewStartSeconds + PreviewEndBuffer ==> r == PreviewStartSeconds
  {
    if !duration.Finite? || duration.v <= 0.0 then PreviewStartSeconds
    else if duration.v <= PreviewStartSeconds then
      (if duration.v - PreviewShortFallback > 0.0 then duration.v - PreviewShortFallback else 0.0)
    else
      var latestAllowed := if duration.v - PreviewEndBuffer > 0.0 then duration.v - PreviewEndBuffer else 0.0;
      if PreviewStartSeconds < latestAllowed then PreviewStartSeconds else latestAllowed
  }

  // ----- getPreferredSubtitleForVideo -----

  /** A subtitle track of a video: its id, language and whether it is the default track. */
  datatype Track = Track(id: string, lang: string, isDefault: bool)

  /** The stored subtitle preference; "" stands for an id or language that is missing or null. */
  datatype Preference = Preference(mode: string, id: string, lang: string)

  const Off: string := "off"

  /** The position of the first track satisfying p. */
  function FindTrack(tracks: seq<Track>, p: Track -> bool): (r: Option<nat>)
    ensures r.None? <==> forall i :: 0 <= i < |tracks| ==> !p(tracks[i])
    ensures r.Some? ==> r.value < |tracks| && p(tracks[r.value]) && forall i :: 0 <= i < r.value ==> !p(tracks[i])
    decreases |tracks|
  {
    if tracks == [] then None
    else if p(tracks[0]) then Some(0)
    else
      var rest := FindTrack(tracks[1..], p);
      assert forall i :: 1 <= i < |tracks| ==> tracks[i] == tracks[1..][i - 1];
      match rest case None => None case Some(k) => Some(k + 1)
  }

  function TrackId(tracks: seq<Track>, found: Option<nat>): string
    requires found.Some? ==> found.value < |tracks|
  {
    match found case None => Off case Some(i) => tracks[i].id
  }

  /** getPreferredSubtitleForVideo; subtitles is None when the video's subtitles are not an array. */
  function PreferredSubtitle(subtitlesEnabled: bool, subtitles: Option<seq<Track>>, preference: Preference): (r: string)
    ensures r == Off || exists i :: 0 <= i < |subtitles.GetOr([])| && r == subtitles.GetOr([])[i].id
  {
    var tracks := subtitles.GetOr([]);
    if !subtitlesEnabled || tracks == [] then Off
    else if preference.mode != "on" then TrackId(tracks, FindTrack(tracks, (t: Track) => t.isDefault))
    else
      var direct := if preference.id != "" then FindTrack(tracks, (t: Track) => t.id == preference.id) else None;
      if direct.Some? then tracks[direct.value].id
      else
        var byLang := if preference.lang != "" then FindTrack(tracks, (t: Track) => t.lang == preference.lang) else None;
        TrackId(tracks, byLang)
  }

  /** The choice, case by case: off when subtitles are disabled or the video has none; without an
      "on" preference, the first default track or off; with one, the preferred id when a track has
      it, else the first track of the preferred language, else off. */
  lemma PreferredSubtitleCases(subtitlesEnabled: bool, subtitles: Option<seq<Track>>, preference: Preference)
    ensures var tracks := subtitles.GetOr([]);
      var r := PreferredSubtitle(subtitlesEnabled, subtitles, preference);
      (!subtitlesEnabled || tracks == [] ==> r == Off)
      && (subtitlesEnabled && tracks != [] && preference.mode != "on" ==>
            ((forall i :: 0 <= i < |tracks| ==> !tracks[i].isDefault) ==> r == Off)
            && (forall i :: 0 <= i < |tracks| && tracks[i].isDefault && (forall j :: 0 <= j < i ==> !tracks[j].isDefault) ==> r == tracks[i].id))
      && (subtitlesEnabled && tracks != [] && preference.mode == "on" ==>
            ((preference.id != "" && exists i :: 0 <= i < |tracks| && tracks[i].id == preference.id) ==> r == preference.id)
            && ((preference.id == "" || forall i :: 0 <= i < |tracks| ==> tracks[i].id != preference.id) ==>
                  (forall i :: (0 <= i < |tracks| && preference.lang != "" && tracks[i].lang == preference.lang
                     && (forall j :: 0 <= j < i ==> tracks[j].lang != preference.lang)) ==> r == tracks[i].id)
                  && ((preference.lang == "" || forall i :: 0 <= i < |tracks| ==> tracks[i].lang != preference.lang) ==> r == Off)))
  {
    var tracks := subtitles.GetOr([]);
    if subtitlesEnabled && tracks != [] {
      if preference.mode != "on" {
        var found := FindTrack(tracks, (t: Track) => t.isDefault);
        forall i | 0 <= i < |tracks| && tracks[i].isDefault && (forall j :: 0 <= j < i ==> !tracks[j].isDefault)
          ensures found == Some(i)
        {
          FirstIsUnique(tracks, (t: Track) => t.isDefault, found.value, i);
        }
      } else if preference.id == "" || forall i :: 0 <= i < |tracks| ==> tracks[i].id != preference.id {
        var byLang := FindTrack(tracks, (t: Track) => t.lang == preference.lang);
        forall i | 0 <= i < |tracks| && preference.lang != "" && tracks[i].lang == preference.lang
          && (forall j :: 0 <= j < i ==> tracks[j].lang != preference.lang)
          ensures byLang == Some(i)
        {
          FirstIsUnique(tracks, (t: Track) => t.lang == preference.lang, byLang.value, i);
        }
      }
    }
  }

  lemma FirstIsUnique(tracks: seq<Track>, p: Track -> bool, a: nat, b: nat)
    requires a < |tracks| && b < |tracks| && p(tracks[a]) && p(tracks[b])
    requires forall i :: 0 <= i < a ==> !p(tracks[i])
    requires forall i :: 0 <= i < b ==> !p(tracks[i])
    ensures a == b
  {
  }

  // ----- formatProviderLabel -----

  /** formatProviderLabel; provider is None when it is null or undefined. */
  function ProviderLabel(provider: Option<string>): (r: string)
    ensures r == "" <==> provider.None? || provider.value == ""
  {
    match provider
    case None => ""
    case Some(name) =>
      if name == "" then ""
      else if name == "apibay" then "Pirate Bay"
      else if name == "yts" then "YTS"
      else name
  }

  /** Only the two known providers are renamed; every other name is shown as it is. */
  lemma ProviderLabelKeeps(name: string)
    ensures ProviderLabel(Some(name)) == name <==> name != "apibay" && name != "yts"
  {
  }

  // ----- normalizeCount -----

  /** String(value) for a value that is not a finite number. */
  function ValueText(value: Value): string
    requires !(value.Num? && value.n.Finite?)
  {
    match value
    case Str(s) => s
    case Num(NaN) => "NaN"
    case Num(Infinity(negative)) => if negative then "-Infinity" else "Infinity"
    case Null => "null"
    case Undefined => "undefined"
    case Bool(b) => if b then "true" else "false"
  }

  /** normalizeCount: a finite number as it is, otherwise the integer parseInt reads from its text,
      otherwise NaN. */
  function NormalizeCount(value: Value): (r: Number)
    ensures r.Finite? || r.NaN?
    ensures value.Num? && value.n.Finite? ==> r == value.n
  {
    if value.Num? && value.n.Finite? then value.n
    else match ParseInt(ValueText(value)) case None => NaN case Some(k) => Finite(k as real)
  }

  lemma ParseIntNoDigit(t: string)
    requires t != [] && !IsJsSpace(t[0]) && !IsDigit(t[0]) && t[0] != '-' && t[0] != '+'
    ensures ParseInt(t) == None
  {
    TrimLeftNoop(t, IsJsSpace);
  }

  /** A value that is neither a text nor a finite number makes normalizeCount NaN. */
  lemma NormalizeCountNaN(value: Value)
    requires !value.Str? && !(value.Num? && value.n.Finite?)
    ensures NormalizeCount(value).NaN?
  {
    var t := ValueText(value);
    if t == "-Infinity" {
      TrimLeftNoop(t, IsJsSpace);
      assert t[1..] == "Infinity";
    } else {
      ParseIntNoDigit(t);
    }
  }

  /** The text of an integer gives that integer, after any leading white space and whatever
      follows that is not a digit ("7", " 7", "12 seeders", "-3px"). */
  lemma NormalizeCountText(lead: string, n: int, rest: string)
    requires forall i :: 0 <= i < |lead| ==> IsJsSpace(lead[i])
    requires rest == [] || !IsDigit(rest[0])
    ensures NormalizeCount(Str(lead + IntToString(n) + rest)) == Finite(n as real)
  {
    ParseIntOfPrintedPrefix(lead, n, rest);
  }

  /** Normalizing a normalized count changes nothing. */
  lemma NormalizeCountIdempotent(value: Value)
    ensures NormalizeCount(Num(NormalizeCount(value))) == NormalizeCount(value)
  {
    if NormalizeCount(value).NaN? {
      NormalizeCountNaN(Num(NaN));
    }
  }
}
