/** scripts/ta_downloader.py: the subtitle rows read from a search result page, the most
    downloaded Turkish and English subtitle, the file names the downloads are saved under and the
    names the extracted archive files are given. HTTP, HTML parsing and archive extraction are
    I/O: what they yield (the fields of each result row, the file list of each archive) is input. */
module SubtitleDownloader {
  import opened Wrappers
  import opened Text

  const Base: string := "https://turkcealtyazi.org"

  // ----- sanitize_filename -----

  /** The characters a file name may not carry: \ / * ? : " < > | */
  predicate Unsafe(c: char) {
    c == '\\' || c == '/' || c == '*' || c == '?' || c == ':' || c == '"' || c == '<' || c == '>' || c == '|'
  }

  /** sanitize_filename: line breaks dropped, surrounding white space stripped, and each run of
      unsafe characters replaced by one '_'. */
  function SanitizeFilename(name: string): (r: string)
    ensures forall i :: 0 <= i < |r| ==> !Unsafe(r[i]) && r[i] != '\r' && r[i] != '\n'
    ensures Unpadded(r)
  {
    StrippedName(name);
    CollapseUnsafe(PyStrip(RemoveChar(RemoveChar(name, '\r'), '\n')));
    CollapseRuns(PyStrip(RemoveChar(RemoveChar(name, '\r'), '\n')), Unsafe, '_')
  }

  /** Text that neither starts nor ends with white space. */
  predicate Unpadded(s: string) {
    s != [] ==> !IsPySpace(s[0]) && !IsPySpace(s[|s| - 1])
  }

  /** The text sanitize_filename collapses: no line break, and no white space at either end. */
  lemma StrippedName(name: string)
    ensures var s := PyStrip(RemoveChar(RemoveChar(name, '\r'), '\n'));
      '\r' !in s && '\n' !in s && Unpadded(s)
  {
    var noCr := RemoveChar(name, '\r');
    var noBreak := RemoveChar(noCr, '\n');
    var left := TrimLeft(noBreak, IsPySpace);
    var s := TrimRight(left, IsPySpace);
    assert '\r' !in noBreak;
    assert '\r' !in left && '\n' !in left;
    assert '\r' !in s && '\n' !in s;
    if s != [] {
      assert s[0] == left[0];
    }
  }

  lemma CollapseUnsafe(s: string)
    requires '\r' !in s && '\n' !in s && Unpadded(s)
    ensures var r := CollapseRuns(s, Unsafe, '_');
      (forall i :: 0 <= i < |r| ==> !Unsafe(r[i]) && r[i] != '\r' && r[i] != '\n')
      && Unpadded(r)
  {
    CollapseUnsafeChars(s);
    var r := CollapseRuns(s, Unsafe, '_');
    if r != [] {
      CollapseRunsLast(s, Unsafe, '_');
    }
  }

  lemma CollapseUnsafeChars(s: string)
    requires '\r' !in s && '\n' !in s
    ensures var r := CollapseRuns(s, Unsafe, '_');
      forall i :: 0 <= i < |r| ==> !Unsafe(r[i]) && r[i] != '\r' && r[i] != '\n'
  {
    var r := CollapseRuns(s, Unsafe, '_');
    forall i | 0 <= i < |r| ensures !Unsafe(r[i]) && r[i] != '\r' && r[i] != '\n' {
      if r[i] != '_' {
        assert r[i] in s;
      }
    }
  }

  /** Sanitizing a sanitized name changes nothing. */
  lemma SanitizeFilenameIdempotent(name: string)
    ensures SanitizeFilename(SanitizeFilename(name)) == SanitizeFilename(name)
  {
    var r := SanitizeFilename(name);
    RemoveCharAbsent(r, '\r');
    RemoveCharAbsent(r, '\n');
    TrimLeftNoop(r, IsPySpace);
    TrimRightNoop(r, IsPySpace);
    assert PyStrip(r) == r;
    CollapseRunsNone(r, Unsafe, '_');
  }

  // ----- parse_Subs -----

  /** The subtitle link of a row: its href ("" when it has none) and its stripped text. */
  datatype Link = Link(href: string, text: string)

  /** What a result row holds: its subtitle link, the classes of its flag span, the stripped texts
      of its translator links, and the stripped text of its download count; None where the row has
      no such element. */
  datatype Row = Row(link: Option<Link>, flagClasses: Option<seq<string>>, translatorTexts: Option<seq<string>>,
                     downloadText: Option<string>)

  /** A subtitle_info dictionary that made it into the list. */
  datatype Subtitle = Subtitle(url: string, title: string, language: string, translator: string,
                               downloads: nat, downloadsFormatted: string)

  const UnknownTitle: string := "Bilinmeyen Altyazı"
  const UnknownTranslator: string := "Bilinmiyor"
  const SubPrefix: string := "/sub/"

  predicate IsSlash(c: char) { c == '/' }

  /** The url of a row: an href already under /sub/ as it is, any other under /sub/ with its
      leading slashes dropped. */
  function SubtitleUrl(href: string): (url: string)
    ensures StartsWith(url, SubPrefix)
  {
    if StartsWith(href, SubPrefix) then href else SubPrefix + TrimLeft(href, IsSlash)
  }

  /** An href is left alone exactly when it already has the /sub/ prefix, and normalising twice is
      normalising once. */
  lemma SubtitleUrlNormal(href: string)
    ensures SubtitleUrl(href) == href <==> StartsWith(href, SubPrefix)
    ensures SubtitleUrl(SubtitleUrl(href)) == SubtitleUrl(href)
  {
    var url := SubtitleUrl(href);
    assert url[..|SubPrefix|] == SubPrefix;
  }

  /** The language of the flag span: tr, en or unknown. */
  function FlagLanguage(flagClasses: Option<seq<string>>): (lang: string)
    ensures lang == "tr" || lang == "en" || lang == "unknown"
  {
    match flagClasses
    case None => "unknown"
    case Some(classes) => if "flagtr" in classes then "tr" else if "flagen" in classes then "en" else "unknown"
  }

  function NonEmpty(texts: seq<string>): (r: seq<string>)
    ensures forall i :: 0 <= i < |r| ==> r[i] != ""
    ensures |r| <= |texts|
  {
    if texts == [] then [] else (if texts[0] == "" then [] else [texts[0]]) + NonEmpty(texts[1..])
  }

  /** The translators joined with " & ", or Bilinmiyor when there are none. */
  function Translator(translatorTexts: Option<seq<string>>): (r: string)
    ensures r != ""
  {
    match translatorTexts
    case None => UnknownTranslator
    case Some(texts) =>
      var names := NonEmpty(texts);
      if names == [] then UnknownTranslator
      else
        assert Join(names, " & ")[..|names[0]|] == names[0] by { JoinStarts(names, " & "); }
        Join(names, " & ")
  }

  lemma JoinStarts(parts: seq<string>, sep: string)
    requires |parts| >= 1
    ensures |parts[0]| <= |Join(parts, sep)| && Join(parts, sep)[..|parts[0]|] == parts[0]
  {
  }

  /** The download text without its ',' and '.' characters. */
  function Digits(text: string): string {
    RemoveChar(RemoveChar(text, ','), '.')
  }

  /** The download count of a row: the text without ',' and '.', read as a decimal number when
      only digits remain and as 0 otherwise. */
  function DownloadCount(text: string): (r: nat)
    ensures r == 0 || forall i :: 0 <= i < |text| ==> IsDigit(text[i]) || text[i] == ',' || text[i] == '.'
  {
    var digits := Digits(text);
    assert AllDigits(digits) ==> forall i :: 0 <= i < |text| ==> IsDigit(text[i]) || text[i] == ',' || text[i] == '.' by {
      if AllDigits(digits) {
        forall i | 0 <= i < |text| && text[i] != ',' && text[i] != '.' ensures IsDigit(text[i]) {
          RemoveCharKeeps(text, ',', text[i]);
          RemoveCharKeeps(RemoveChar(text, ','), '.', text[i]);
        }
      }
    }
    if digits != [] && AllDigits(digits) then DigitsValue(digits) else 0
  }

  lemma DigitsConcat(x: string, y: string)
    ensures Digits(x + y) == Digits(x) + Digits(y)
  {
    RemoveCharConcat(x, y, ',');
    RemoveCharConcat(RemoveChar(x, ','), RemoveChar(y, ','), '.');
  }

  /** Thousands separators do not change a count. */
  lemma DownloadCountSeparator(a: string, b: string, sep: char)
    requires sep == ',' || sep == '.'
    ensures DownloadCount(a + [sep] + b) == DownloadCount(a + b)
  {
    DigitsConcat(a + [sep], b);
    DigitsConcat(a, [sep]);
    DigitsConcat(a, b);
    assert Digits([sep]) == [];
    assert Digits(a) + [] == Digits(a);
  }

  /** A count printed in decimal reads back as itself. */
  lemma DownloadCountOfNat(n: nat)
    ensures DownloadCount(NatToString(n)) == n
  {
    var d := NatToString(n);
    assert ',' !in d && '.' !in d by {
      forall i | 0 <= i < |d| ensures d[i] != ',' && d[i] != '.' { assert IsDigit(d[i]); }
    }
    RemoveCharAbsent(d, ',');
    RemoveCharAbsent(d, '.');
    assert Digits(d) == d;
    DigitsValueOfNatToString(n);
  }

  /** One row of the result page: rows without a link, or whose link has no href, are skipped. */
  function ParseRow(row: Row): (r: Option<Subtitle>)
    ensures r.Some? <==> row.link.Some? && row.link.value.href != ""
  {
    match row.link
    case None => None
    case Some(link) =>
      if link.href == "" then None
      else Some(Subtitle(
        SubtitleUrl(link.href),
        if link.text == "" then UnknownTitle else link.text,
        FlagLanguage(row.flagClasses),
        Translator(row.translatorTexts),
        match row.downloadText case None => 0 case Some(text) => DownloadCount(text),
        row.downloadText.GetOr("0")))
  }

  /** The list parse_Subs builds from the rows. */
  function ParsedRows(rows: seq<Row>): (r: seq<Subtitle>)
    ensures forall i :: 0 <= i < |r| ==> WellFormed(r[i])
    ensures |r| == LinkedRows(rows) <= |rows|
  {
    if rows == [] then []
    else
      var init := ParsedRows(rows[..|rows| - 1]);
      match ParseRow(rows[|rows| - 1]) case None => init case Some(s) => init + [s]
  }

  /** parse_Subs: the loop over the rows, building the list. */
  method ParseSubs(rows: seq<Row>) returns (subtitles: seq<Subtitle>)
    ensures subtitles == ParsedRows(rows)
  {
    subtitles := [];
    var k := 0;
    while k < |rows|
      invariant k <= |rows|
      invariant subtitles == ParsedRows(rows[..k])
    {
      assert rows[..k + 1][..k] == rows[..k];
      var info := ParseRow(rows[k]);
      if info.Some? {
        subtitles := subtitles + [info.value];
      }
      k := k + 1;
    }
    assert rows[..k] == rows;
  }

  predicate WellFormed(s: Subtitle) {
    StartsWith(s.url, SubPrefix) && s.title != "" && s.translator != ""
    && (s.language == "tr" || s.language == "en" || s.language == "unknown")
  }

  function LinkedRows(rows: seq<Row>): (n: nat)
    ensures n <= |rows|
  {
    if rows == [] then 0
    else LinkedRows(rows[..|rows| - 1]) + (if ParseRow(rows[|rows| - 1]).Some? then 1 else 0)
  }

  // ----- get_Most_Downloaded_Subtitle -----

  /** i is the first subtitle of language lang with the greatest download count among them. */
  predicate FirstMaximal(subs: seq<Subtitle>, lang: string, i: nat) {
    i < |subs| && subs[i].language == lang
    && (forall j :: 0 <= j < |subs| && subs[j].language == lang ==> subs[j].downloads <= subs[i].downloads)
    && (forall j :: 0 <= j < i && subs[j].language == lang ==> subs[j].downloads < subs[i].downloads)
  }

  /** max over the subtitles of language lang keyed by downloads: the first one wins a tie. */
  function MostDownloadedIndex(subs: seq<Subtitle>, lang: string): (r: Option<nat>)
    ensures r.None? <==> forall j :: 0 <= j < |subs| ==> subs[j].language != lang
    ensures r.Some? ==> FirstMaximal(subs, lang, r.value)
  {
    if subs == [] then None
    else
      var init := subs[..|subs| - 1];
      var last := subs[|subs| - 1];
      var best := MostDownloadedIndex(init, lang);
      assert forall j :: 0 <= j < |init| ==> init[j] == subs[j];
      if last.language != lang then best
      else if best.None? || last.downloads > subs[best.value].downloads then Some(|subs| - 1)
      else best
  }

  /** The first maximal subtitle of a language is unique. */
  lemma FirstMaximalUnique(subs: seq<Subtitle>, lang: string, i: nat, j: nat)
    requires FirstMaximal(subs, lang, i) && FirstMaximal(subs, lang, j)
    ensures i == j
  {
  }

  datatype MostDownloaded = MostDownloaded(turkish: Option<Subtitle>, english: Option<Subtitle>)

  function Pick(subs: seq<Subtitle>, lang: string): Option<Subtitle> {
    match MostDownloadedIndex(subs, lang) case None => None case Some(i) => Some(subs[i])
  }

  /** get_Most_Downloaded_Subtitle */
  function GetMostDownloaded(subs: seq<Subtitle>): (m: MostDownloaded)
    ensures m.turkish.None? <==> forall j :: 0 <= j < |subs| ==> subs[j].language != "tr"
    ensures m.english.None? <==> forall j :: 0 <= j < |subs| ==> subs[j].language != "en"
    ensures m.turkish.Some? ==> exists i: nat :: FirstMaximal(subs, "tr", i) && subs[i] == m.turkish.value
    ensures m.english.Some? ==> exists i: nat :: FirstMaximal(subs, "en", i) && subs[i] == m.english.value
  {
    if subs == [] then MostDownloaded(None, None)
    else
      var t := MostDownloadedIndex(subs, "tr");
      var e := MostDownloadedIndex(subs, "en");
      assert t.Some? ==> FirstMaximal(subs, "tr", t.value) && subs[t.value] == Pick(subs, "tr").value;
      assert e.Some? ==> FirstMaximal(subs, "en", e.value) && subs[e.value] == Pick(subs, "en").value;
      MostDownloaded(Pick(subs, "tr"), Pick(subs, "en"))
  }

  /** The path fetch_subtitle_page requests: a '/' is put in front when missing. */
  function PagePath(subtitleUrl: string): (path: string)
    ensures StartsWith(path, "/")
    ensures StartsWith(subtitleUrl, "/") ==> path == subtitleUrl
  {
    if StartsWith(subtitleUrl, "/") then subtitleUrl else "/" + subtitleUrl
  }

  /** The address fetch_subtitle_page requests. */
  function PageAddress(subtitleUrl: string): (r: string)
    ensures StartsWith(r, Base + "/") && |r| >= |Base| + |subtitleUrl|
    ensures r[|r| - |subtitleUrl|..] == subtitleUrl
    ensures StartsWith(subtitleUrl, "/") ==> r == Base + subtitleUrl
  {
    Base + PagePath(subtitleUrl)
  }

  /** A url from the result page is requested as it is: the site root followed by /sub/.... */
  lemma PageAddressOfRow(row: Row)
    requires ParseRow(row).Some?
    ensures PageAddress(ParseRow(row).value.url) == Base + ParseRow(row).value.url
    ensures StartsWith(PageAddress(ParseRow(row).value.url), Base + SubPrefix)
  {
    var url := ParseRow(row).value.url;
    assert url[..1] == url[..|SubPrefix|][..1];
    var a := Base + url;
    assert a[..|Base + SubPrefix|] == Base + url[..|SubPrefix|];
  }

  // ----- extract_and_cleanup_archives -----

  /** An archive member: its name and whether it is a regular file once extracted. */
  datatype ArchiveEntry = ArchiveEntry(name: string, isFile: bool)

  /** The query as a file name stem: stripped, lower-cased, spaces as '_', sanitized. */
  function CleanQuery(query: string): (r: string)
    ensures ' ' !in r
    ensures forall i :: 0 <= i < |r| ==> !Unsafe(r[i])
  {
    var replaced := ReplaceChar(Lower(PyStrip(query)), ' ', '_');
    assert ' ' !in replaced;
    SanitizeNoSpace(replaced);
    SanitizeFilename(replaced)
  }

  /** Sanitizing brings in no space: it only drops characters and writes '_'. */
  lemma SanitizeNoSpace(t: string)
    requires ' ' !in t
    ensures ' ' !in SanitizeFilename(t)
  {
    var removed := RemoveChar(RemoveChar(t, '\r'), '\n');
    var stripped := PyStrip(removed);
    assert ' ' !in stripped by {
      assert forall c :: c in stripped ==> c in removed;
    }
    var r := SanitizeFilename(t);
    forall i | 0 <= i < |r| ensures r[i] != ' ' {
      if r[i] != '_' { assert r[i] in stripped; }
    }
  }

  /** The position just after the last c in s, 0 when there is none. */
  function After(s: string, c: char): (k: nat)
    ensures k <= |s|
  {
    if c in s then LastIndex(s, c) + 1 else 0
  }

  /** os.path.splitext(p)[1]: from the last '.' of the last path component on, unless the
      component has nothing but dots before it. */
  function Extension(p: string): (ext: string)
    ensures ext == [] || ext[0] == '.'
  {
    var start := After(p, '/');
    if '.' in p && LastIndex(p, '.') >= start && exists k :: start <= k < LastIndex(p, '.') && p[k] != '.' then
      p[LastIndex(p, '.')..]
    else ""
  }

  predicate IsSrt(name: string) {
    Lower(Extension(name)) == ".srt"
  }

  /** The new name of an archive member; counter is the number of .srt members renamed before it. */
  function NewName(cleanQuery: string, lang: string, name: string, counter: nat): (r: string)
    ensures StartsWith(r, cleanQuery + "." + lang + ".")
    ensures IsSrt(name) ==> |r| >= 4 && r[|r| - 4..] == ".srt"
  {
    var stem := cleanQuery + "." + lang + ".";
    assert IsSrt(name) && counter == 0 ==> (stem + "srt")[|stem + "srt"| - 4..] == ".srt";
    assert forall t: string :: (stem + t)[..|stem|] == stem;
    if IsSrt(name) then
      if counter == 0 then stem + "srt" else stem + NatToString(counter + 1) + ".srt"
    else stem + name
  }

  function SrtCount(entries: seq<ArchiveEntry>): nat {
    if entries == [] then 0
    else SrtCount(entries[..|entries| - 1]) + (if entries[|entries| - 1].isFile && IsSrt(entries[|entries| - 1].name) then 1 else 0)
  }

  /** The names the extracted files of an archive are given, in archive order; members that are
      not files are left alone. */
  function Renamed(cleanQuery: string, lang: string, entries: seq<ArchiveEntry>): (r: seq<string>)
    ensures |r| == FileCount(entries)
    ensures forall i :: 0 <= i < |r| ==> StartsWith(r[i], cleanQuery + "." + lang + ".")
  {
    if entries == [] then []
    else
      var init := entries[..|entries| - 1];
      var e := entries[|entries| - 1];
      Renamed(cleanQuery, lang, init) + (if e.isFile then [NewName(cleanQuery, lang, e.name, SrtCount(init))] else [])
  }

  lemma PrefixStep<T>(s: seq<T>, k: nat)
    requires k < |s|
    ensures s[..k + 1][..k] == s[..k] && s[..k + 1][k] == s[k]
  {
  }

  /** The renaming loop of one archive, counting the .srt members in subtitle_counter. */
  method RenameExtracted(entries: seq<ArchiveEntry>, cleanQuery: string, lang: string) returns (renamed: seq<string>)
    ensures renamed == Renamed(cleanQuery, lang, entries)
  {
    renamed := [];
    var subtitleCounter := 0;
    var k := 0;
    while k < |entries|
      invariant k <= |entries|
      invariant subtitleCounter == SrtCount(entries[..k])
      invariant renamed == Renamed(cleanQuery, lang, entries[..k])
    {
      PrefixStep(entries, k);
      var e := entries[k];
      if e.isFile {
        var stem := cleanQuery + "." + lang + ".";
        var newName;
        if IsSrt(e.name) {
          if subtitleCounter == 0 {
            newName := stem + "srt";
          } else {
            newName := stem + NatToString(subtitleCounter + 1) + ".srt";
          }
          subtitleCounter := subtitleCounter + 1;
        } else {
          newName := stem + e.name;
        }
        renamed := renamed + [newName];
      }
      k := k + 1;
    }
    assert entries[..k] == entries;
  }

  /** extract_and_cleanup_archives: the new names of the Turkish and the English archive's files;
      an archive that was not downloaded or could not be opened (None) gives none. */
  method ExtractAndCleanup(turkish: Option<seq<ArchiveEntry>>, english: Option<seq<ArchiveEntry>>, query: string)
    returns (turkishFiles: seq<string>, englishFiles: seq<string>)
    ensures turkishFiles == (if turkish.Some? then Renamed(CleanQuery(query), "tr", turkish.value) else [])
    ensures englishFiles == (if english.Some? then Renamed(CleanQuery(query), "en", english.value) else [])
  {
    var cleanQuery := CleanQuery(query);
    turkishFiles, englishFiles := [], [];
    if turkish.Some? {
      turkishFiles := RenameExtracted(turkish.value, cleanQuery, "tr");
    }
    if english.Some? {
      englishFiles := RenameExtracted(english.value, cleanQuery, "en");
    }
  }

  function FileCount(entries: seq<ArchiveEntry>): nat {
    if entries == [] then 0 else FileCount(entries[..|entries| - 1]) + (if entries[|entries| - 1].isFile then 1 else 0)
  }

  /** Counting the .srt files never goes down, and goes up past each of them. */
  lemma SrtCountGrows(entries: seq<ArchiveEntry>, i: nat, j: nat)
    requires i < j <= |entries|
    requires entries[i].isFile && IsSrt(entries[i].name)
    ensures SrtCount(entries[..i]) < SrtCount(entries[..j])
  {
    SrtCountStep(entries, i);
    SrtCountMonotone(entries, i + 1, j);
  }

  lemma {:induction false} SrtCountMonotone(entries: seq<ArchiveEntry>, a: nat, b: nat)
    requires a <= b <= |entries|
    ensures SrtCount(entries[..a]) <= SrtCount(entries[..b])
    decreases b
  {
    if a < b {
      SrtCountStep(entries, b - 1);
      SrtCountMonotone(entries, a, b - 1);
    }
  }

  /** One more member adds one to the count exactly when it is an .srt file. */
  lemma SrtCountStep(entries: seq<ArchiveEntry>, k: nat)
    requires k < |entries|
    ensures SrtCount(entries[..k + 1]) == SrtCount(entries[..k]) + (if entries[k].isFile && IsSrt(entries[k].name) then 1 else 0)
  {
    PrefixStep(entries, k);
  }

  lemma NatToStringInjective(a: nat, b: nat)
    requires NatToString(a) == NatToString(b)
    ensures a == b
  {
    DigitsValueOfNatToString(a);
    DigitsValueOfNatToString(b);
  }

  /** Two .srt names with different counters differ. */
  lemma SrtNamesDiffer(cleanQuery: string, lang: string, x: string, y: string, a: nat, b: nat)
    requires IsSrt(x) && IsSrt(y) && a != b
    ensures NewName(cleanQuery, lang, x, a) != NewName(cleanQuery, lang, y, b)
  {
    var stem := cleanQuery + "." + lang + ".";
    var nx := NewName(cleanQuery, lang, x, a);
    var ny := NewName(cleanQuery, lang, y, b);
    if a != 0 && b != 0 && nx == ny {
      var da := NatToString(a + 1);
      var db := NatToString(b + 1);
      assert |da| == |db|;
      assert da == nx[|stem|..|stem| + |da|];
      assert db == ny[|stem|..|stem| + |db|];
      NatToStringInjective(a + 1, b + 1);
    }
  }

  /** No two .srt files of an archive are given the same name. */
  lemma RenamedSrtDistinct(cleanQuery: string, lang: string, entries: seq<ArchiveEntry>, i: nat, j: nat)
    requires i < j < |entries|
    requires entries[i].isFile && IsSrt(entries[i].name) && entries[j].isFile && IsSrt(entries[j].name)
    ensures NewName(cleanQuery, lang, entries[i].name, SrtCount(entries[..i]))
      != NewName(cleanQuery, lang, entries[j].name, SrtCount(entries[..j]))
  {
    SrtCountGrows(entries, i, j);
    SrtNamesDiffer(cleanQuery, lang, entries[i].name, entries[j].name, SrtCount(entries[..i]), SrtCount(entries[..j]));
  }
}
