/** Magnet links (server/torrentService.js): percent-encoding of components, building a link from an
    info hash, and extracting the info hash back out of a link. */
module Magnet {
  import opened Wrappers
  import opened Text

  /** The characters encodeURIComponent leaves as they are. */
  predicate IsUnreserved(c: char) {
    IsDigit(c) || IsAsciiUpper(c) || IsAsciiLower(c)
    || c == '-' || c == '_' || c == '.' || c == '!' || c == '~' || c == '*' || c == '\'' || c == '(' || c == ')'
  }

  predicate IsUpperHex(c: char) { IsDigit(c) || ('A' <= c <= 'F') }

  function HexDigit(d: nat): (c: char)
    requires d < 16
    ensures IsUpperHex(c)
  {
    if d < 10 then DigitChar(d) else ('A' as int + d - 10) as char
  }

  /** One UTF-8 byte written as %XX. */
  function PercentByte(b: nat): (r: string)
    requires b < 256
    ensures |r| == 3 && r[0] == '%' && IsUpperHex(r[1]) && IsUpperHex(r[2])
  {
    ['%', HexDigit(b / 16), HexDigit(b % 16)]
  }

  /** The UTF-8 encoding of one code point, each byte percent-escaped. */
  function PercentUtf8(c: char): (r: string)
    ensures |r| >= 3 && forall i :: 0 <= i < |r| ==> r[i] == '%' || IsUpperHex(r[i])
  {
    var n := c as int;
    if n < 0x80 then PercentByte(n)
    else if n < 0x800 then PercentByte(0xC0 + n / 64) + PercentByte(0x80 + n % 64)
    else if n < 0x10000 then
      PercentByte(0xE0 + n / 4096) + PercentByte(0x80 + (n / 64) % 64) + PercentByte(0x80 + n % 64)
    else
      PercentByte(0xF0 + n / 262144) + PercentByte(0x80 + (n / 4096) % 64)
      + PercentByte(0x80 + (n / 64) % 64) + PercentByte(0x80 + n % 64)
  }

  /** encodeURIComponent: unreserved characters are kept, every other code point is written as its
      percent-escaped UTF-8 bytes. */
  function EncodeURIComponent(s: string): (r: string)
    ensures forall i :: 0 <= i < |r| ==> IsUnreserved(r[i]) || r[i] == '%' || IsUpperHex(r[i])
    ensures '&' !in r
    decreases |s|
  {
    if s == [] then ""
    else (if IsUnreserved(s[0]) then [s[0]] else PercentUtf8(s[0])) + EncodeURIComponent(s[1..])
  }

  /** DEFAULT_TRACKERS */
  const DefaultTrackers: seq<string> := [
    "udp://tracker.opentrackr.org:1337/announce",
    "udp://tracker.openbittorrent.com:6969/announce",
    "udp://tracker.opentrackr.org:1337",
    "udp://tracker.tiny-vps.com:6969/announce",
    "udp://tracker.cyberia.is:6969/announce",
    "udp://tracker.leechers-paradise.org:6969/announce",
    "udp://open.demonii.com:1337/announce"
  ]

  /** The `&tr=` parameters for a list of trackers, in order. */
  function TrackerParams(trackers: seq<string>): (r: string)
    ensures trackers != [] ==> StartsWith(r, "&tr=")
    decreases |trackers|
  {
    if trackers == [] then "" else "&tr=" + EncodeURIComponent(trackers[0]) + TrackerParams(trackers[1..])
  }

  const MagnetPrefix: string := "magnet:?xt=urn:btih:"

  /** An optional `&dn=` parameter followed by the tracker parameters: empty, or starting with '&'. */
  function LinkParams(name: string, trackers: seq<string>): (r: string)
    ensures r == [] || r[0] == '&'
  {
    var dn := if name != "" then "&dn=" + EncodeURIComponent(name) else "";
    dn + TrackerParams(trackers)
  }

  /** buildMagnetLink over a given tracker list. */
  function BuildMagnetLinkWith(infoHash: Option<string>, name: string, trackers: seq<string>): (r: Option<string>)
    ensures r.None? <==> infoHash.None? || infoHash.value == ""
    ensures r.Some? ==> StartsWith(r.value, MagnetPrefix + infoHash.value)
    ensures r.Some? ==> var n := |MagnetPrefix + infoHash.value|; |r.value| == n || r.value[n] == '&'
  {
    if infoHash.None? || infoHash.value == "" then None
    else
      var link := MagnetPrefix + infoHash.value + LinkParams(name, trackers);
      assert link[..|MagnetPrefix + infoHash.value|] == MagnetPrefix + infoHash.value;
      Some(link)
  }

  /** buildMagnetLink({infoHash, name}): null without an info hash; the display name only when non-empty;
      the default trackers always. */
  function BuildMagnetLink(infoHash: Option<string>, name: string): (r: Option<string>)
    ensures r.None? <==> infoHash.None? || infoHash.value == ""
    ensures r.Some? ==> StartsWith(r.value, MagnetPrefix + infoHash.value)
  {
    BuildMagnetLinkWith(infoHash, name, DefaultTrackers)
  }

  /** After the prefix and the hash comes the display name when there is one, else the first tracker. */
  lemma BuiltLinkStart(infoHash: Option<string>, name: string, trackers: seq<string>)
    requires infoHash.Some? && infoHash.value != "" && trackers != []
    ensures var link := BuildMagnetLinkWith(infoHash, name, trackers).value; var h := infoHash.value;
      (name != "" ==> StartsWith(link, MagnetPrefix + h + ("&dn=" + EncodeURIComponent(name))))
      && (name == "" ==> StartsWith(link, MagnetPrefix + h + "&tr="))
  {
    var h := infoHash.value;
    var head := MagnetPrefix + h;
    var tr := TrackerParams(trackers);
    var dn := if name != "" then "&dn=" + EncodeURIComponent(name) else "";
    var link := BuildMagnetLinkWith(infoHash, name, trackers).value;
    assert link == head + (dn + tr) by {
      assert LinkParams(name, trackers) == dn + tr;
    }
    if name != "" {
      assert StartsWith(dn + tr, dn) by {
        StartsWithAppend(dn, tr, "");
        assert dn + "" == dn;
      }
      StartsWithAppend(head, dn + tr, dn);
    } else {
      assert dn + tr == tr;
      StartsWithAppend(head, tr, "&tr=");
    }
  }

  /** A prefix of the tail extends to a prefix of the whole. */
  lemma StartsWithAppend(head: string, tail: string, p: string)
    requires StartsWith(tail, p)
    ensures StartsWith(head + tail, head + p)
  {
    assert (head + tail)[..|head + p|] == head + tail[..|p|];
  }

  // ----- extractInfoHash -----

  /** The regular expression /btih:([^&]+)/i matches at position i. */
  predicate BtihAt(s: string, i: int) {
    0 <= i && i + 5 < |s| && Lower(s[i..i + 5]) == "btih:" && s[i + 5] != '&'
  }

  /** The leftmost match position, at or after `from`. */
  function FindBtih(s: string, from: nat): (r: Option<nat>)
    ensures r.Some? ==> from <= r.value && BtihAt(s, r.value)
    ensures r.Some? ==> forall j :: from <= j < r.value ==> !BtihAt(s, j)
    ensures r.None? ==> forall j :: from <= j ==> !BtihAt(s, j)
    decreases |s| - from
  {
    if from + 5 >= |s| then None
    else if BtihAt(s, from) then Some(from)
    else FindBtih(s, from + 1)
  }

  /** The longest prefix without '&' (the capture group [^&]+). */
  function UpToAmpersand(s: string): (r: string)
    ensures StartsWith(s, r) && '&' !in r
    ensures |r| == |s| || s[|r|] == '&'
    decreases |s|
  {
    if s == [] || s[0] == '&' then "" else [s[0]] + UpToAmpersand(s[1..])
  }

  /** extractInfoHash: null for a missing or empty link or one without a match; otherwise the captured
      text, lower-cased. */
  function ExtractInfoHash(magnet: Option<string>): (r: Option<string>)
    ensures r.None? <==> magnet.None? || magnet.value == "" || FindBtih(magnet.value, 0).None?
    ensures r.Some? ==> exists i ::
      BtihAt(magnet.value, i) && (forall j :: 0 <= j < i ==> !BtihAt(magnet.value, j))
      && r.value == Lower(UpToAmpersand(magnet.value[i + 5..]))
    ensures r.Some? ==> r.value != "" && Lower(r.value) == r.value && '&' !in r.value
  {
    if magnet.None? || magnet.value == "" then None
    else
      var s := magnet.value;
      match FindBtih(s, 0)
      case None => None
      case Some(i) =>
        var captured := UpToAmpersand(s[i + 5..]);
        assert captured != "" by { assert s[i + 5..][0] == s[i + 5]; }
        var lowered := Lower(captured);
        assert Lower(lowered) == lowered;
        assert '&' !in lowered by {
          forall k | 0 <= k < |lowered| ensures lowered[k] != '&' { assert captured[k] != '&'; }
        }
        Some(lowered)
  }

  /** A lower-case hexadecimal digest, such as the info hashes the search providers return. */
  predicate IsLowerHex(h: string) {
    forall i :: 0 <= i < |h| ==> IsDigit(h[i]) || ('a' <= h[i] <= 'f')
  }

  /** For a lower-case hex info hash, extracting from the built link gives the hash back, whatever the
      display name and the trackers. */
  lemma ExtractBuildRoundTripWith(h: string, name: string, trackers: seq<string>)
    requires h != "" && IsLowerHex(h)
    ensures ExtractInfoHash(BuildMagnetLinkWith(Some(h), name, trackers)) == Some(h)
  {
    var link := BuildMagnetLinkWith(Some(h), name, trackers).value;
    assert StartsWith(link, MagnetPrefix + h);
    BuiltFindsPrefix(link, h);
    BuiltCapture(link, h);
    LowerHexLower(h);
  }

  /** The first match in a built link is the "btih:" that ends the prefix. */
  lemma BuiltFindsPrefix(link: string, h: string)
    requires h != "" && StartsWith(link, MagnetPrefix + h) && h[0] != '&'
    ensures FindBtih(link, 0) == Some(15)
  {
    assert |MagnetPrefix| == 20;
    assert link[..20] == MagnetPrefix by { assert link[..20] == (MagnetPrefix + h)[..20]; }
    forall j | 0 <= j < 15 ensures !BtihAt(link, j) {
      assert link[j..j + 5] == MagnetPrefix[j..j + 5];
      var w := MagnetPrefix[j..j + 5];
      assert Lower(w)[0] == LowerChar(MagnetPrefix[j]) && Lower(w)[4] == LowerChar(MagnetPrefix[j + 4]);
      assert MagnetPrefix[j] != 'b' && MagnetPrefix[j] != 'B';
    }
    assert link[15..20] == "btih:";
    assert link[20] == (MagnetPrefix + h)[20] == h[0];
    assert BtihAt(link, 15);
    FindBtihSkip(link, 0, 15);
  }

  lemma {:induction false} FindBtihSkip(s: string, from: nat, i: nat)
    requires from <= i && BtihAt(s, i) && forall j :: from <= j < i ==> !BtihAt(s, j)
    ensures FindBtih(s, from) == Some(i)
    decreases i - from
  {
    if from < i {
      FindBtihSkip(s, from + 1, i);
    }
  }

  /** What follows the prefix of a built link, up to the first '&', is the hash. */
  lemma BuiltCapture(link: string, h: string)
    requires StartsWith(link, MagnetPrefix + h) && IsLowerHex(h)
    requires |link| == |MagnetPrefix + h| || link[|MagnetPrefix + h|] == '&'
    ensures UpToAmpersand(link[20..]) == h
  {
    assert |MagnetPrefix| == 20;
    var rest := link[20..];
    assert rest[..|h|] == h by { assert rest[..|h|] == link[20..20 + |h|] == (MagnetPrefix + h)[20..]; }
    assert '&' !in h by {
      forall k | 0 <= k < |h| ensures h[k] != '&' { }
    }
    UpToAmpersandPrefix(rest, h);
  }

  lemma LowerHexLower(h: string)
    requires IsLowerHex(h)
    ensures Lower(h) == h
  {
    forall k | 0 <= k < |h| ensures Lower(h)[k] == h[k] { assert !IsAsciiUpper(h[k]); }
  }

  /** The round trip for the links buildMagnetLink produces. */
  lemma ExtractBuildRoundTrip(h: string, name: string)
    requires h != "" && IsLowerHex(h)
    ensures ExtractInfoHash(BuildMagnetLink(Some(h), name)) == Some(h)
  {
    ExtractBuildRoundTripWith(h, name, DefaultTrackers);
  }

  lemma {:induction false} UpToAmpersandPrefix(s: string, h: string)
    requires StartsWith(s, h) && '&' !in h
    requires |s| == |h| || s[|h|] == '&'
    ensures UpToAmpersand(s) == h
    decreases |h|
  {
    if h != [] {
      assert s[0] == h[0];
      assert StartsWith(s[1..], h[1..]) by {
        assert s[1..][..|h| - 1] == s[..|h|][1..];
      }
      UpToAmpersandPrefix(s[1..], h[1..]);
    } else if s != [] {
      assert s[0] == '&';
    }
  }
}
