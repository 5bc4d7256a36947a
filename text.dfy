/** Character classes and string operations shared by the JavaScript and Python sources:
    white-space trimming as JavaScript and Python define it, ASCII case mapping, splitting
    and joining, decimal printing and JavaScript's parseInt(s, 10). */
module Text {
  import opened Wrappers

  // ----- character classes -----

  /** The code points JavaScript's trim(), trimStart() and the regular-expression class \s treat as white space. */
  predicate IsJsSpace(c: char) {
    c == ' ' || c == '\t' || c == '\n' || c == '\r' || c == '\U{000B}' || c == '\U{000C}'
    || c == '\U{00A0}' || c == '\U{1680}' || ('\U{2000}' <= c <= '\U{200A}')
    || c == '\U{2028}' || c == '\U{2029}' || c == '\U{202F}' || c == '\U{205F}'
    || c == '\U{3000}' || c == '\U{FEFF}'
  }

  /** The code points Python's str.strip() removes when given no argument (str.isspace). */
  predicate IsPySpace(c: char) {
    c == ' ' || ('\t' <= c <= '\r') || ('\U{001C}' <= c <= '\U{001F}') || c == '\U{0085}'
    || c == '\U{00A0}' || c == '\U{1680}' || ('\U{2000}' <= c <= '\U{200A}')
    || c == '\U{2028}' || c == '\U{2029}' || c == '\U{202F}' || c == '\U{205F}' || c == '\U{3000}'
  }

  predicate IsDigit(c: char) { '0' <= c <= '9' }
  predicate IsAsciiUpper(c: char) { 'A' <= c <= 'Z' }
  predicate IsAsciiLower(c: char) { 'a' <= c <= 'z' }

  predicate AllDigits(s: string) { forall i :: 0 <= i < |s| ==> IsDigit(s[i]) }

  function LowerChar(c: char): (d: char)
    ensures !IsAsciiUpper(d)
    ensures IsAsciiUpper(c) || d == c
  {
    if IsAsciiUpper(c) then (c as int + 32) as char else c
  }

  function UpperChar(c: char): (d: char)
    ensures !IsAsciiLower(d)
    ensures IsAsciiLower(c) || d == c
  {
    if IsAsciiLower(c) then (c as int - 32) as char else c
  }

  /** toLowerCase() / str.lower() on the ASCII letters; every other code point is kept. */
  function Lower(s: string): (r: string)
    ensures |r| == |s|
    ensures forall i :: 0 <= i < |s| ==> r[i] == LowerChar(s[i])
  {
    seq(|s|, i requires 0 <= i < |s| => LowerChar(s[i]))
  }

  /** toUpperCase() on the ASCII letters; every other code point is kept. */
  function Upper(s: string): (r: string)
    ensures |r| == |s|
    ensures forall i :: 0 <= i < |s| ==> r[i] == UpperChar(s[i])
  {
    seq(|s|, i requires 0 <= i < |s| => UpperChar(s[i]))
  }

  // ----- trimming -----

  /** Drops the longest prefix of characters satisfying ws. */
  function TrimLeft(s: string, ws: char -> bool): (r: string)
    ensures |r| <= |s| && r == s[|s| - |r|..]
    ensures r == [] || !ws(r[0])
    ensures forall i :: 0 <= i < |s| - |r| ==> ws(s[i])
    decreases |s|
  {
    if s != [] && ws(s[0]) then TrimLeft(s[1..], ws) else s
  }

  /** Drops the longest suffix of characters satisfying ws. */
  function TrimRight(s: string, ws: char -> bool): (r: string)
    ensures |r| <= |s| && r == s[..|r|]
    ensures r == [] || !ws(r[|r| - 1])
    ensures forall i :: |r| <= i < |s| ==> ws(s[i])
    decreases |s|
  {
    if s != [] && ws(s[|s| - 1]) then TrimRight(s[..|s| - 1], ws) else s
  }

  /** JavaScript String.prototype.trim. */
  function JsTrim(s: string): string {
    TrimRight(TrimLeft(s, IsJsSpace), IsJsSpace)
  }

  /** JavaScript String.prototype.trimStart. */
  function JsTrimStart(s: string): string {
    TrimLeft(s, IsJsSpace)
  }

  /** Python str.strip() with no argument. */
  function PyStrip(s: string): string {
    TrimRight(TrimLeft(s, IsPySpace), IsPySpace)
  }

  /** Trimming only drops characters. */
  lemma JsTrimChars(s: string)
    ensures forall c :: c in JsTrim(s) ==> c in s
  {
    var left := TrimLeft(s, IsJsSpace);
    assert forall c :: c in left ==> c in s;
  }

  lemma TrimLeftNoop(s: string, ws: char -> bool)
    requires s == [] || !ws(s[0])
    ensures TrimLeft(s, ws) == s
  {
  }

  lemma TrimRightNoop(s: string, ws: char -> bool)
    requires s == [] || !ws(s[|s| - 1])
    ensures TrimRight(s, ws) == s
  {
  }

  // ----- prefixes, occurrences, replacement -----

  predicate StartsWith(s: string, p: string) {
    |p| <= |s| && s[..|p|] == p
  }

  predicate OccursAt(s: string, p: string, i: int) {
    0 <= i && i + |p| <= |s| && s[i..i + |p|] == p
  }

  /** JavaScript s.includes(p) / Python `p in s`. */
  predicate Contains(s: string, p: string) {
    exists i :: 0 <= i <= |s| - |p| && OccursAt(s, p, i)
  }

  /** Replaces every occurrence of the character a by b (a single-character replace with the global flag). */
  function ReplaceChar(s: string, a: char, b: char): (r: string)
    ensures |r| == |s|
    ensures forall i :: 0 <= i < |s| ==> r[i] == (if s[i] == a then b else s[i])
  {
    seq(|s|, i requires 0 <= i < |s| => if s[i] == a then b else s[i])
  }

  /** Removes every occurrence of the character a (Python s.replace(a, "")). */
  function RemoveChar(s: string, a: char): (r: string)
    ensures a !in r
    ensures |r| <= |s|
    ensures forall c :: c in r ==> c in s
    decreases |s|
  {
    if s == [] then [] else (if s[0] == a then [] else [s[0]]) + RemoveChar(s[1..], a)
  }
  /** Removing a character keeps every other one. */
  lemma {:induction false} RemoveCharKeeps(s: string, a: char, c: char)
    requires c in s && c != a
    ensures c in RemoveChar(s, a)
    decreases |s|
  {
    if s[0] != c {
      RemoveCharKeeps(s[1..], a, c);
    }
  }


  // ----- runs of a character class -----

  /** A global replace of `[class]+` by one rep character. */
  function CollapseRuns(s: string, cls: char -> bool, rep: char): (r: string)
    ensures s == [] <==> r == []
    ensures s != [] ==> r[0] == if cls(s[0]) then rep else s[0]
    ensures forall i :: 0 <= i < |r| ==> r[i] == rep || (!cls(r[i]) && r[i] in s)
    ensures cls(rep) ==> forall i :: 0 <= i < |r| - 1 ==> !(r[i] == rep && r[i + 1] == rep)
    decreases |s|
  {
    if s == [] then []
    else if cls(s[0]) then
      var rest := TrimLeft(s, cls);
      [rep] + CollapseRuns(rest, cls, rep)
    else
      var tail := CollapseRuns(s[1..], cls, rep);
      assert forall i :: 0 <= i < |tail| ==> tail[i] == rep || tail[i] in s by {
        forall i | 0 <= i < |tail| && tail[i] != rep ensures tail[i] in s {
          assert tail[i] in s[1..];
        }
      }
      [s[0]] + tail
  }

  /** The last character of a collapse is rep when s ends in a run of the class, else s's last. */
  lemma {:induction false} CollapseRunsLast(s: string, cls: char -> bool, rep: char)
    requires s != []
    ensures var r := CollapseRuns(s, cls, rep); r[|r| - 1] == if cls(s[|s| - 1]) then rep else s[|s| - 1]
    decreases |s|
  {
    if cls(s[0]) {
      var rest := TrimLeft(s, cls);
      if rest != [] {
        CollapseRunsLast(rest, cls, rep);
        assert rest[|rest| - 1] == s[|s| - 1];
      }
    } else if |s| > 1 {
      CollapseRunsLast(s[1..], cls, rep);
    }
  }

  /** Text with no character of the class is left as it is. */
  lemma {:induction false} CollapseRunsNone(s: string, cls: char -> bool, rep: char)
    requires forall i :: 0 <= i < |s| ==> !cls(s[i])
    ensures CollapseRuns(s, cls, rep) == s
    decreases |s|
  {
    if s != [] {
      CollapseRunsNone(s[1..], cls, rep);
    }
  }

  /** A character of the class followed by one that is not (or by nothing) is a run of one: the
      collapse writes rep for it and carries on with the rest. */
  lemma CollapseRunsSingle(s: string, cls: char -> bool, rep: char)
    requires s != [] && cls(s[0]) && (|s| == 1 || !cls(s[1]))
    ensures CollapseRuns(s, cls, rep) == [rep] + CollapseRuns(s[1..], cls, rep)
  {
    var t := s[1..];
    assert t == [] || t[0] == s[1];
    TrimLeftNoop(t, cls);
    assert TrimLeft(s, cls) == t;
  }

  /** A prefix without a character of the class is kept as it is in front of the collapse of the rest. */
  lemma {:induction false} CollapseRunsKeep(p: string, u: string, cls: char -> bool, rep: char)
    requires forall i :: 0 <= i < |p| ==> !cls(p[i])
    ensures CollapseRuns(p + u, cls, rep) == p + CollapseRuns(u, cls, rep)
    decreases |p|
  {
    if p == [] {
      assert p + u == u;
    } else {
      var s := p + u;
      assert s[0] == p[0] && s[1..] == p[1..] + u;
      CollapseRunsHead(s, cls, rep);
      CollapseRunsKeep(p[1..], u, cls, rep);
      ConcatAssoc([p[0]], p[1..], CollapseRuns(u, cls, rep));
      assert [p[0]] + p[1..] == p;
    }
  }

  /** Concatenation is associative. */
  lemma ConcatAssoc<T>(a: seq<T>, b: seq<T>, c: seq<T>)
    ensures a + (b + c) == a + b + c
  {
  }

  /** A first character outside the class is copied, and the collapse goes on with the rest. */
  lemma CollapseRunsHead(s: string, cls: char -> bool, rep: char)
    requires s != [] && !cls(s[0])
    ensures CollapseRuns(s, cls, rep) == [s[0]] + CollapseRuns(s[1..], cls, rep)
  {
  }

  /** A whole run of the class in front of text that does not start with the class becomes one rep. */
  lemma CollapseRunsGap(g: string, u: string, cls: char -> bool, rep: char)
    requires g != [] && forall i :: 0 <= i < |g| ==> cls(g[i])
    requires u == [] || !cls(u[0])
    ensures CollapseRuns(g + u, cls, rep) == [rep] + CollapseRuns(u, cls, rep)
  {
    assert (g + u)[0] == g[0];
    TrimLeftLeading(g, u, cls);
    TrimLeftNoop(u, cls);
  }

  /** The position of the last c in s. */
  function LastIndex(s: string, c: char): (i: nat)
    requires c in s
    ensures i < |s| && s[i] == c && c !in s[i + 1..]
    decreases |s|
  {
    if s[|s| - 1] == c then |s| - 1
    else
      assert c in s[..|s| - 1] by {
        var j :| 0 <= j < |s| && s[j] == c;
        assert s[..|s| - 1][j] == c;
      }
      var i := LastIndex(s[..|s| - 1], c);
      assert s[i + 1..] == s[..|s| - 1][i + 1..] + [s[|s| - 1]];
      i
  }

  lemma {:induction false} RemoveCharAbsent(s: string, a: char)
    requires a !in s
    ensures RemoveChar(s, a) == s
    decreases |s|
  {
    if s != [] {
      RemoveCharAbsent(s[1..], a);
    }
  }

  lemma {:induction false} RemoveCharConcat(s: string, t: string, a: char)
    ensures RemoveChar(s + t, a) == RemoveChar(s, a) + RemoveChar(t, a)
    decreases |s|
  {
    if s == [] {
      assert s + t == t;
    } else {
      assert (s + t)[0] == s[0] && (s + t)[1..] == s[1..] + t;
      RemoveCharConcat(s[1..], t, a);
    }
  }

  // ----- splitting and joining on one separator character -----

  function FirstIndex(s: string, c: char): (i: nat)
    requires c in s
    ensures i < |s| && s[i] == c && c !in s[..i]
  {
    if s[0] == c then 0 else 1 + FirstIndex(s[1..], c)
  }

  /** JavaScript s.split(sep) for a one-character separator: the pieces between separators, empty ones included. */
  function Split(s: string, sep: char): (r: seq<string>)
    ensures |r| >= 1
    ensures forall i :: 0 <= i < |r| ==> sep !in r[i]
    decreases |s|
  {
    if sep !in s then [s]
    else
      var i := FirstIndex(s, sep);
      [s[..i]] + Split(s[i + 1..], sep)
  }

  /** Every character of a piece of a split is a character of the text. */
  lemma {:induction false} SplitChars(s: string, sep: char, i: int, c: char)
    requires 0 <= i < |Split(s, sep)| && c in Split(s, sep)[i]
    ensures c in s
    decreases |s|
  {
    if sep in s {
      var j := FirstIndex(s, sep);
      if i == 0 {
        assert c in s[..j];
      } else {
        SplitChars(s[j + 1..], sep, i - 1, c);
        assert c in s[j + 1..];
      }
    }
  }

  /** JavaScript parts.join(sep). */
  function Join(parts: seq<string>, sep: string): string
    decreases |parts|
  {
    if |parts| == 0 then "" else if |parts| == 1 then parts[0] else parts[0] + sep + Join(parts[1..], sep)
  }

  /** Joining the pieces of a split restores the text. */
  lemma {:induction false} JoinSplit(s: string, sep: char)
    ensures Join(Split(s, sep), [sep]) == s
    decreases |s|
  {
    if sep in s {
      var i := FirstIndex(s, sep);
      var rest := Split(s[i + 1..], sep);
      assert Split(s, sep) == [s[..i]] + rest;
      JoinSplit(s[i + 1..], sep);
      JoinCons(s[..i], rest, [sep]);
      assert s == s[..i] + [sep] + s[i + 1..];
    }
  }

  lemma JoinCons(p: string, rest: seq<string>, sep: string)
    requires |rest| >= 1
    ensures Join([p] + rest, sep) == p + sep + Join(rest, sep)
  {
    assert ([p] + rest)[1..] == rest;
  }

  /** Splitting a join of separator-free pieces gives the pieces back. */
  lemma {:induction false} SplitJoin(parts: seq<string>, sep: char)
    requires |parts| >= 1
    requires forall i :: 0 <= i < |parts| ==> sep !in parts[i]
    ensures Split(Join(parts, [sep]), sep) == parts
    decreases |parts|
  {
    if |parts| > 1 {
      var s := Join(parts, [sep]);
      var p0 := parts[0];
      assert s == p0 + [sep] + Join(parts[1..], [sep]);
      assert s[|p0|] == sep;
      assert s[..|p0|] == p0;
      assert sep in s;
      var i := FirstIndex(s, sep);
      assert i == |p0|;
      assert s[i + 1..] == Join(parts[1..], [sep]);
      SplitJoin(parts[1..], sep);
    }
  }

  // ----- decimal numbers -----

  function DigitChar(d: nat): (c: char)
    requires d < 10
    ensures IsDigit(c)
  {
    ('0' as int + d) as char
  }

  function DigitValue(c: char): nat
    requires IsDigit(c)
  {
    c as int - '0' as int
  }

  /** The decimal representation of n, as `${n}` prints it. */
  function NatToString(n: nat): (r: string)
    ensures |r| >= 1 && AllDigits(r)
    ensures r[0] == '0' ==> n == 0
    decreases n
  {
    if n < 10 then [DigitChar(n)] else NatToString(n / 10) + [DigitChar(n % 10)]
  }

  function IntToString(n: int): string {
    if n < 0 then "-" + NatToString(-n) else NatToString(n)
  }

  /** The value of a string of decimal digits. */
  function DigitsValue(s: string): nat
    requires AllDigits(s)
    decreases |s|
  {
    if s == [] then 0 else DigitsValue(s[..|s| - 1]) * 10 + DigitValue(s[|s| - 1])
  }

  lemma {:induction false} DigitsValueOfNatToString(n: nat)
    ensures DigitsValue(NatToString(n)) == n
    decreases n
  {
    if n >= 10 {
      var s := NatToString(n);
      assert s[..|s| - 1] == NatToString(n / 10);
      DigitsValueOfNatToString(n / 10);
    }
  }

  /** Length of the longest prefix of decimal digits. */
  function DigitPrefixLength(s: string): (k: nat)
    ensures k <= |s| && AllDigits(s[..k])
    ensures k == |s| || !IsDigit(s[k])
    decreases |s|
  {
    if s != [] && IsDigit(s[0]) then
      var k := 1 + DigitPrefixLength(s[1..]);
      assert forall i :: 1 <= i < k ==> s[..k][i] == s[1..][..k - 1][i - 1];
      k
    else 0
  }

  /** JavaScript Number.parseInt(s, 10): leading white space, an optional sign, then the longest digit
      prefix; None stands for NaN (no digit after the sign). */
  function ParseInt(s: string): (r: Option<int>)
  {
    var t := JsTrimStart(s);
    var signed := |t| > 0 && (t[0] == '-' || t[0] == '+');
    var u := if signed then t[1..] else t;
    var k := DigitPrefixLength(u);
    if k == 0 then None
    else
      var v: int := DigitsValue(u[..k]);
      Some(if signed && t[0] == '-' then -v else v)
  }

  /** parseInt gives NaN exactly when no digit follows the leading white space and the optional
      sign, and gives a negative number only after a '-'. */
  lemma ParseIntDefined(s: string)
    ensures var t := JsTrimStart(s); var u := if |t| > 0 && (t[0] == '-' || t[0] == '+') then t[1..] else t;
      ParseInt(s).None? <==> u == [] || !IsDigit(u[0])
    ensures ParseInt(s).Some? && ParseInt(s).value < 0 ==> |JsTrimStart(s)| > 0 && JsTrimStart(s)[0] == '-'
  {
  }

  /** `Number.parseInt(s, 10) || 0`: NaN (and 0) become 0. */
  function ParseIntOrZero(s: string): int {
    ParseInt(s).GetOr(0)
  }

  lemma AllDigitsPrefix(d: string)
    requires AllDigits(d)
    ensures DigitPrefixLength(d) == |d|
  {
  }

  lemma ParseIntOfDigits(d: string)
    requires |d| >= 1 && AllDigits(d)
    ensures ParseInt(d) == Some(DigitsValue(d))
  {
    TrimLeftNoop(d, IsJsSpace);
    AllDigitsPrefix(d);
    assert d[..|d|] == d;
  }

  /** Characters of the class in front of a text are all trimmed. */
  lemma {:induction false} TrimLeftLeading(lead: string, t: string, ws: char -> bool)
    requires forall i :: 0 <= i < |lead| ==> ws(lead[i])
    ensures TrimLeft(lead + t, ws) == TrimLeft(t, ws)
    decreases |lead|
  {
    if lead == [] {
      assert lead + t == t;
    } else {
      assert (lead + t)[0] == lead[0] && ws(lead[0]);
      assert (lead + t)[1..] == lead[1..] + t;
      TrimLeftLeading(lead[1..], t, ws);
    }
  }

  /** The digit prefix of digits followed by a non-digit is those digits. */
  lemma {:induction false} DigitPrefixOfDigits(d: string, rest: string)
    requires AllDigits(d) && (rest == [] || !IsDigit(rest[0]))
    ensures DigitPrefixLength(d + rest) == |d|
    decreases |d|
  {
    if d != [] {
      assert (d + rest)[1..] == d[1..] + rest;
      DigitPrefixOfDigits(d[1..], rest);
    }
  }

  /** parseInt reads an integer's text back after any leading white space, whatever non-digit text
      follows it. */
  lemma ParseIntOfPrintedPrefix(lead: string, n: int, rest: string)
    requires forall i :: 0 <= i < |lead| ==> IsJsSpace(lead[i])
    requires rest == [] || !IsDigit(rest[0])
    ensures ParseInt(lead + IntToString(n) + rest) == Some(n)
  {
    var t := IntToString(n) + rest;
    assert lead + IntToString(n) + rest == lead + t;
    TrimLeftLeading(lead, t, IsJsSpace);
    ParseIntSameStart(lead + t, t);
    ParseIntOfPrinted(n, rest);
  }

  /** ParseIntOfPrintedPrefix without the white space. */
  lemma ParseIntOfPrinted(n: int, rest: string)
    requires rest == [] || !IsDigit(rest[0])
    ensures ParseInt(IntToString(n) + rest) == Some(n)
  {
    var m: nat := if n < 0 then -n else n;
    DigitsValueOfNatToString(m);
    if n < 0 {
      assert IntToString(n) + rest == "-" + (NatToString(m) + rest);
      ParseIntOfNegDigitsThen(NatToString(m), rest);
    } else {
      ParseIntOfDigitsThen(NatToString(m), rest);
    }
  }

  /** parseInt only looks at the text after the leading white space. */
  lemma ParseIntSameStart(a: string, b: string)
    requires JsTrimStart(a) == JsTrimStart(b)
    ensures ParseInt(a) == ParseInt(b)
  {
  }

  /** parseInt of a text that starts with its digits, or with '-' and its digits. */
  lemma ParseIntOfLeading(t: string, d: string, negative: bool)
    requires JsTrimStart(t) == t && |d| >= 1 && AllDigits(d)
    requires negative ==> |t| > 0 && t[0] == '-' && DigitPrefixLength(t[1..]) == |d| && t[1..][..|d|] == d
    requires !negative ==> DigitPrefixLength(t) == |d| && t[..|d|] == d
    ensures ParseInt(t) == Some(if negative then -(DigitsValue(d) as int) else DigitsValue(d))
  {
    if !negative {
      assert t[0] == t[..|d|][0] && IsDigit(t[0]);
    }
  }

  lemma ParseIntOfDigitsThen(d: string, rest: string)
    requires |d| >= 1 && AllDigits(d) && (rest == [] || !IsDigit(rest[0]))
    ensures ParseInt(d + rest) == Some(DigitsValue(d))
  {
    var u := d + rest;
    assert u[0] == d[0];
    TrimLeftNoop(u, IsJsSpace);
    DigitPrefixOfDigits(d, rest);
    assert u[..|d|] == d;
    ParseIntOfLeading(u, d, false);
  }

  lemma ParseIntOfNegDigitsThen(d: string, rest: string)
    requires |d| >= 1 && AllDigits(d) && (rest == [] || !IsDigit(rest[0]))
    ensures ParseInt("-" + (d + rest)) == Some(-(DigitsValue(d) as int))
  {
    var u := d + rest;
    var m := "-" + u;
    TrimLeftNoop(m, IsJsSpace);
    assert m[1..] == u;
    DigitPrefixOfDigits(d, rest);
    assert u[..|d|] == d;
    ParseIntOfLeading(m, d, true);
  }

  /** JavaScript padStart(2, '0'). */
  function PadStart2(s: string): (r: string)
    ensures |r| == if |s| >= 2 then |s| else 2
    ensures |s| >= 2 ==> r == s
    ensures |s| <= 2 ==> r[2 - |s|..] == s && forall i :: 0 <= i < 2 - |s| ==> r[i] == '0'
  {
    if |s| >= 2 then s else if |s| == 1 then "0" + s else "00"
  }
}
