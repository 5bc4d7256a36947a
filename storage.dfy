/** server/storageService.js: the disk report of `df -kP`, the size of the application's own
    directories, the split of used space into application and other bytes, and the one-minute
    cache of that summary. The `df` run, lstat and readdir are I/O: their outcomes are inputs
    (the text `df` printed or its error, a tree of what lstat and readdir report). */
module Storage {
  import opened Wrappers
  import opened Text
  import opened JsNumbers

  // ----- JavaScript arithmetic on the df figures -----

  /** a <= b for numbers that are not NaN. */
  predicate AtMost(a: Number, b: Number) {
    match (a, b)
    case (Infinity(true), _) => true
    case (_, Infinity(false)) => true
    case (Finite(x), Finite(y)) => x <= y
    case _ => false
  }

  /** Math.max(a, b) */
  function Max(a: Number, b: Number): (r: Number)
    ensures r.NaN? <==> a.NaN? || b.NaN?
    ensures !r.NaN? ==> AtMost(a, r) && AtMost(b, r) && (r == a || r == b)
  {
    if a.NaN? || b.NaN? then NaN else if AtMost(a, b) then b else a
  }

  /** a + b */
  function Add(a: Number, b: Number): Number {
    match (a, b)
    case (Finite(x), Finite(y)) => Finite(x + y)
    case (Infinity(p), Infinity(q)) => if p == q then a else NaN
    case (Infinity(_), Finite(_)) => a
    case (Finite(_), Infinity(_)) => b
    case _ => NaN
  }

  /** -a */
  function Negate(a: Number): Number {
    match a
    case Finite(x) => Finite(-x)
    case Infinity(p) => Infinity(!p)
    case NaN => NaN
  }

  /** a - b */
  function Subtract(a: Number, b: Number): Number {
    Add(a, Negate(b))
  }

  /** a * 1024 */
  function Kibibytes(a: Number): (r: Number)
    ensures r.NaN? <==> a.NaN?
  {
    match a
    case Finite(x) => Finite(x * 1024.0)
    case _ => a
  }

  // ----- getDiskStats -----

  /** What getDiskStats resolves to: the byte figures and the texts of the df report's last line. */
  datatype DiskStats = DiskStats(total: Number, used: Number, available: Number,
                                 capacity: string, mount: string, filesystem: string)

  const DiskError: string := "Disk bilgisi alınamadı: "
  const NoTableError: string := "df çıktısı beklenen formatta değil"
  const ShortLineError: string := "df çıktısı eksik"

  /** JavaScript s.split(/\s+/): the texts between runs of white space, with an empty first (last)
      piece when s starts (ends) with white space. */
  function SplitSpace(s: string): (r: seq<string>)
    ensures |r| >= 1
    ensures forall i :: 0 <= i < |r| ==> forall k :: 0 <= k < |r[i]| ==> !IsJsSpace(r[i][k])
  {
    var t := CollapseRuns(s, IsJsSpace, ' ');
    var r := Split(t, ' ');
    assert forall i :: 0 <= i < |r| ==> forall k :: 0 <= k < |r[i]| ==> !IsJsSpace(r[i][k]) by {
      forall i, k | 0 <= i < |r| && 0 <= k < |r[i]| ensures !IsJsSpace(r[i][k]) {
        var c := r[i][k];
        SplitChars(t, ' ', i, c);
        var j :| 0 <= j < |t| && t[j] == c;
        assert c != ' ';
      }
    }
    r
  }

  /** getDiskStats, given the outcome of running `df -kP`: its standard output, or the message
      of the error it failed with. Every failure carries the DiskError prefix. */
  function ParseDf(output: Result<string>): (r: Result<DiskStats>)
    ensures r.Err? ==> StartsWith(r.message, DiskError)
    ensures output.Err? ==> r == Err(DiskError + output.message)
    ensures output.Ok? ==> var lines := Split(JsTrim(output.value), '\n');
      (r.Err? <==> |lines| < 2 || |SplitSpace(lines[|lines| - 1])| < 6)
      && (|lines| < 2 ==> r == Err(DiskError + NoTableError))
      && (|lines| >= 2 && |SplitSpace(lines[|lines| - 1])| < 6 ==> r == Err(DiskError + ShortLineError))
  {
    match output
    case Err(message) => Err(DiskError + message)
    case Ok(stdout) =>
      var lines := Split(JsTrim(stdout), '\n');
      if |lines| < 2 then Err(DiskError + NoTableError)
      else
        var parts := SplitSpace(lines[|lines| - 1]);
        if |parts| < 6 then Err(DiskError + ShortLineError)
        else Ok(StatsOf(parts))
  }

  /** The figures of a df report line split into fields: the three sizes at 1, 2 and 3 in bytes,
      the capacity and mount point at 4 and 5, the file system at 0. */
  function StatsOf(parts: seq<string>): (d: DiskStats)
    requires |parts| >= 6
  {
    DiskStats(Kibibytes(StringToNumber(parts[1])), Kibibytes(StringToNumber(parts[2])), Kibibytes(StringToNumber(parts[3])),
              parts[4], parts[5], parts[0])
  }

  /** A df field: some text without white space. */
  predicate Field(s: string) {
    s != [] && forall i :: 0 <= i < |s| ==> !IsJsSpace(s[i])
  }

  /** The padding between two df columns: a non-empty run of white space that does not end the
      line. */
  predicate Gap(g: string) {
    g != [] && forall i :: 0 <= i < |g| ==> IsJsSpace(g[i]) && g[i] != '\n'
  }

  /** Fields laid out in columns, each gap holding the padding between two of them. */
  function PaddedJoin(fields: seq<string>, gaps: seq<string>): string
    requires |fields| >= 1 && |gaps| == |fields| - 1
    decreases |fields|
  {
    if |fields| == 1 then fields[0] else fields[0] + gaps[0] + PaddedJoin(fields[1..], gaps[1..])
  }

  /** Padded fields form one line that starts and ends with a field character. */
  lemma {:induction false} PaddedJoinEnds(fields: seq<string>, gaps: seq<string>)
    requires |fields| >= 1 && |gaps| == |fields| - 1
    requires forall i :: 0 <= i < |fields| ==> Field(fields[i])
    requires forall i :: 0 <= i < |gaps| ==> Gap(gaps[i])
    ensures var s := PaddedJoin(fields, gaps);
      s != [] && !IsJsSpace(s[0]) && !IsJsSpace(s[|s| - 1]) && '\n' !in s
    decreases |fields|
  {
    var f := fields[0];
    assert '\n' !in f by {
      forall k | 0 <= k < |f| ensures f[k] != '\n' { assert !IsJsSpace(f[k]); }
    }
    if |fields| > 1 {
      var g := gaps[0];
      var t := PaddedJoin(fields[1..], gaps[1..]);
      PaddedJoinEnds(fields[1..], gaps[1..]);
      var s := PaddedJoin(fields, gaps);
      assert s == f + g + t;
      assert '\n' !in g by {
        forall k | 0 <= k < |g| ensures g[k] != '\n' { assert Gap(g); }
      }
      assert s[0] == f[0];
      assert s[|s| - 1] == t[|t| - 1];
    }
  }

  /** Collapsing a field, a gap and text that starts with a field character keeps the field and
      turns the gap into one space. */
  lemma CollapseFieldGap(f: string, g: string, t: string)
    requires Field(f) && Gap(g) && t != [] && !IsJsSpace(t[0])
    ensures CollapseRuns(f + g + t, IsJsSpace, ' ') == f + " " + CollapseRuns(t, IsJsSpace, ' ')
  {
    assert f + g + t == f + (g + t);
    CollapseRunsKeep(f, g + t, IsJsSpace, ' ');
    CollapseRunsGap(g, t, IsJsSpace, ' ');
    ConcatAssoc(f, " ", CollapseRuns(t, IsJsSpace, ' '));
  }

  /** Collapsing the padding of padded fields gives the fields joined by single spaces. */
  lemma {:induction false} CollapsePadded(fields: seq<string>, gaps: seq<string>)
    requires |fields| >= 1 && |gaps| == |fields| - 1
    requires forall i :: 0 <= i < |fields| ==> Field(fields[i])
    requires forall i :: 0 <= i < |gaps| ==> Gap(gaps[i])
    ensures CollapseRuns(PaddedJoin(fields, gaps), IsJsSpace, ' ') == Join(fields, " ")
    decreases |fields|
  {
    if |fields| == 1 {
      CollapseRunsKeep(fields[0], [], IsJsSpace, ' ');
      assert fields[0] + [] == fields[0];
    } else {
      var t := PaddedJoin(fields[1..], gaps[1..]);
      PaddedJoinEnds(fields[1..], gaps[1..]);
      CollapsePadded(fields[1..], gaps[1..]);
      CollapseFieldGap(fields[0], gaps[0], t);
    }
  }

  /** Splitting padded fields at their white space gives the fields back. */
  lemma SplitSpacePadded(fields: seq<string>, gaps: seq<string>)
    requires |fields| >= 1 && |gaps| == |fields| - 1
    requires forall i :: 0 <= i < |fields| ==> Field(fields[i])
    requires forall i :: 0 <= i < |gaps| ==> Gap(gaps[i])
    ensures SplitSpace(PaddedJoin(fields, gaps)) == fields
  {
    CollapsePadded(fields, gaps);
    forall i | 0 <= i < |fields| ensures ' ' !in fields[i] {
      assert forall k :: 0 <= k < |fields[i]| ==> fields[i][k] != ' ';
    }
    SplitJoin(fields, ' ');
  }

  /** The df report line of a file system: its name, the three sizes in KiB, the capacity and the
      mount point, padded by the five gaps. */
  function ReportLine(filesystem: string, total: nat, used: nat, available: nat, capacity: string, mount: string,
                      gaps: seq<string>): string
    requires |gaps| == 5
  {
    PaddedJoin([filesystem, NatToString(total), NatToString(used), NatToString(available), capacity, mount], gaps)
  }

  lemma NatField(n: nat)
    ensures Field(NatToString(n))
  {
    var d := NatToString(n);
    forall i | 0 <= i < |d| ensures !IsJsSpace(d[i]) { assert IsDigit(d[i]); }
  }

  /** A header line and a report line, as df prints them, are the two lines of its output. */
  lemma ReportLines(header: string, line: string)
    requires header != [] && !IsJsSpace(header[0]) && '\n' !in header
    requires line != [] && !IsJsSpace(line[|line| - 1]) && '\n' !in line
    ensures Split(JsTrim(header + "\n" + line), '\n') == [header, line]
  {
    var stdout := header + "\n" + line;
    TrimLeftNoop(stdout, IsJsSpace);
    assert stdout[|stdout| - 1] == line[|line| - 1];
    TrimRightNoop(stdout, IsJsSpace);
    assert Join([header, line], "\n") == stdout;
    SplitJoin([header, line], '\n');
  }

  /** Reading back a report of a header and one file system's line, however its columns are
      padded, gives that line's figures in bytes and its texts. */
  lemma ParseDfReport(header: string, filesystem: string, total: nat, used: nat, available: nat, capacity: string, mount: string,
                      gaps: seq<string>)
    requires header != [] && !IsJsSpace(header[0]) && '\n' !in header
    requires Field(filesystem) && Field(capacity) && Field(mount)
    requires |gaps| == 5 && forall i :: 0 <= i < 5 ==> Gap(gaps[i])
    ensures ParseDf(Ok(header + "\n" + ReportLine(filesystem, total, used, available, capacity, mount, gaps)))
      == Ok(DiskStats(Finite(total as real * 1024.0), Finite(used as real * 1024.0), Finite(available as real * 1024.0),
                      capacity, mount, filesystem))
  {
    var fields := [filesystem, NatToString(total), NatToString(used), NatToString(available), capacity, mount];
    NatField(total);
    NatField(used);
    NatField(available);
    assert forall i :: 0 <= i < |fields| ==> Field(fields[i]);
    var line := ReportLine(filesystem, total, used, available, capacity, mount, gaps);
    PaddedJoinEnds(fields, gaps);
    ReportLines(header, line);
    SplitSpacePadded(fields, gaps);
    StatsOfNumbers(filesystem, total, used, available, capacity, mount);
  }

  lemma StatsOfNumbers(filesystem: string, total: nat, used: nat, available: nat, capacity: string, mount: string)
    ensures StatsOf([filesystem, NatToString(total), NatToString(used), NatToString(available), capacity, mount])
      == DiskStats(Finite(total as real * 1024.0), Finite(used as real * 1024.0), Finite(available as real * 1024.0),
                   capacity, mount, filesystem)
  {
    var parts := [filesystem, NatToString(total), NatToString(used), NatToString(available), capacity, mount];
    var d := StatsOf(parts);
    assert d.total == Kibibytes(StringToNumber(NatToString(total))) by { assert parts[1] == NatToString(total); }
    assert d.used == Kibibytes(StringToNumber(NatToString(used))) by { assert parts[2] == NatToString(used); }
    assert d.available == Kibibytes(StringToNumber(NatToString(available))) by { assert parts[3] == NatToString(available); }
    KibibytesOfNat(total);
    KibibytesOfNat(used);
    KibibytesOfNat(available);
  }

  lemma KibibytesOfNat(n: nat)
    ensures Kibibytes(StringToNumber(NatToString(n))) == Finite(n as real * 1024.0)
  {
    StringToNumberOfNatToString(n);
  }

  // ----- getDirectorySize -----

  /** What lstat reports for a path: nothing (ENOENT), another error, a file, a symbolic link, or
      a directory with what readdir then reports for it. */
  datatype Node = Absent | Faulty | File(size: nat) | Link(size: nat) | Dir(listing: Listing)

  /** What readdir reports for a directory: nothing (ENOENT), another error, or its entries. */
  datatype Listing = Gone | Unreadable | Listed(entries: seq<Entry>)

  datatype Entry = Entry(name: string, node: Node)

  /** Sum of two sizes, failing when either fails. */
  function AddSize(a: Option<nat>, b: Option<nat>): (r: Option<nat>)
    ensures r.Some? <==> a.Some? && b.Some?
    ensures r.Some? ==> r.value == a.value + b.value
  {
    if a.Some? && b.Some? then Some(a.value + b.value) else None
  }

  predicate Hidden(name: string) {
    StartsWith(name, ".")
  }

  /** The bytes the walk counts below a listed directory; None when it throws. */
  function ListingSize(l: Listing): Option<nat>
    decreases l
  {
    match l
    case Gone => Some(0)
    case Unreadable => None
    case Listed(entries) => EntriesSize(entries)
  }

  /** The walk of a listing fails exactly when the walk of one of its entries fails, and otherwise
      counts at least each entry's bytes. */
  function EntriesSize(entries: seq<Entry>): (r: Option<nat>)
    ensures r.None? <==> exists i :: 0 <= i < |entries| && EntrySize(entries[i]).None?
    ensures r.Some? ==> forall i :: 0 <= i < |entries| ==> EntrySize(entries[i]).value <= r.value
    decreases entries
  {
    if entries == [] then Some(0) else AddSize(EntrySize(entries[0]), EntriesSize(entries[1..]))
  }

  /** What one directory entry adds: nothing when hidden, missing or a link; a file's size; a
      subdirectory's total. */
  function EntrySize(e: Entry): Option<nat>
    decreases e
  {
    if Hidden(e.name) then Some(0)
    else match e.node
      case Absent => Some(0)
      case Faulty => None
      case Link(_) => Some(0)
      case File(size) => Some(size)
      case Dir(l) => ListingSize(l)
  }

  /** getDirectorySize of a path lstat reports as root; None when it throws. */
  function NodeSize(root: Node): (r: Option<nat>)
    ensures root.Dir? && root.listing.Listed? ==>
      (r.None? <==> exists i :: 0 <= i < |root.listing.entries| && EntrySize(root.listing.entries[i]).None?)
    ensures root.Dir? && root.listing.Listed? && r.Some? ==>
      forall i :: 0 <= i < |root.listing.entries| ==> EntrySize(root.listing.entries[i]).value <= r.value
  {
    match root
    case Absent => Some(0)
    case Faulty => None
    case File(size) => Some(size)
    case Link(size) => Some(size)
    case Dir(l) => ListingSize(l)
  }

  /** The total of the directories waiting in the queue. */
  function QueueSize(queue: seq<Listing>): Option<nat> {
    if queue == [] then Some(0) else AddSize(QueueSize(queue[..|queue| - 1]), ListingSize(queue[|queue| - 1]))
  }

  /** Termination measure of the walk: directories count one each. */
  function ListingWeight(l: Listing): nat
    decreases l
  {
    match l
    case Listed(entries) => 1 + EntriesWeight(entries)
    case _ => 1
  }

  function EntriesWeight(entries: seq<Entry>): nat
    decreases entries
  {
    if entries == [] then 0
    else (match entries[0].node case Dir(l) => ListingWeight(l) case _ => 0) + EntriesWeight(entries[1..])
  }

  function QueueWeight(queue: seq<Listing>): nat {
    if queue == [] then 0 else QueueWeight(queue[..|queue| - 1]) + ListingWeight(queue[|queue| - 1])
  }

  lemma QueuePush(queue: seq<Listing>, l: Listing)
    ensures QueueSize(queue + [l]) == AddSize(QueueSize(queue), ListingSize(l))
    ensures QueueWeight(queue + [l]) == QueueWeight(queue) + ListingWeight(l)
  {
    assert (queue + [l])[..|queue|] == queue;
  }

  lemma EntriesFrom(entries: seq<Entry>, i: nat)
    requires i < |entries|
    ensures EntriesSize(entries[i..]) == AddSize(EntrySize(entries[i]), EntriesSize(entries[i + 1..]))
    ensures EntriesWeight(entries[i..]) ==
      (match entries[i].node case Dir(l) => ListingWeight(l) case _ => 0) + EntriesWeight(entries[i + 1..])
  {
    assert entries[i..][0] == entries[i];
    assert entries[i..][1..] == entries[i + 1..];
  }

  /** The inner for loop over one directory's entries: files add to the total, subdirectories
      join the queue; ok is false when an lstat throws. */
  method VisitEntries(entries: seq<Entry>, total0: nat, queue0: seq<Listing>) returns (ok: bool, total: nat, queue: seq<Listing>)
    ensures ok ==> AddSize(Some(total), QueueSize(queue)) == AddSize(Some(total0), AddSize(QueueSize(queue0), EntriesSize(entries)))
    ensures !ok ==> AddSize(Some(total0), AddSize(QueueSize(queue0), EntriesSize(entries))) == None
    ensures QueueWeight(queue) <= QueueWeight(queue0) + EntriesWeight(entries)
  {
    ghost var target := AddSize(Some(total0), AddSize(QueueSize(queue0), EntriesSize(entries)));
    total, queue := total0, queue0;
    var i := 0;
    while i < |entries|
      invariant i <= |entries|
      invariant AddSize(Some(total), AddSize(QueueSize(queue), EntriesSize(entries[i..]))) == target
      invariant QueueWeight(queue) + EntriesWeight(entries[i..]) <= QueueWeight(queue0) + EntriesWeight(entries)
    {
      var e := entries[i];
      EntriesFrom(entries, i);
      if !Hidden(e.name) {
        match e.node {
          case Absent =>
          case Faulty =>
            return false, total, queue;
          case Link(_) =>
          case File(size) =>
            total := total + size;
          case Dir(l) =>
            QueuePush(queue, l);
            queue := queue + [l];
        }
      }
      i := i + 1;
    }
    assert entries[|entries|..] == [];
    ok := true;
  }

  /** getDirectorySize: the worklist walk from a root that lstat reports as a directory. */
  method DirectorySize(root: Node) returns (size: Option<nat>)
    ensures size == NodeSize(root)
  {
    if !root.Dir? {
      return match root
        case Absent => Some(0)
        case File(s) => Some(s)
        case Link(s) => Some(s)
        case _ => None;
    }
    var total: nat := 0;
    var queue := [root.listing];
    assert queue[..0] == [];
    while |queue| > 0
      invariant AddSize(Some(total), QueueSize(queue)) == NodeSize(root)
      decreases QueueWeight(queue)
    {
      var current := queue[|queue| - 1];
      queue := queue[..|queue| - 1];
      match current {
        case Gone =>
        case Unreadable =>
          return None;
        case Listed(entries) =>
          var ok;
          ok, total, queue := VisitEntries(entries, total, queue);
          if !ok {
            return None;
          }
      }
    }
    size := Some(total);
  }

  /** Filters the entries that can add to a total: visible files and directories, and errors. */
  function Counted(entries: seq<Entry>): (r: seq<Entry>)
    ensures |r| <= |entries|
    decreases |entries|
  {
    if entries == [] then []
    else
      var e := entries[0];
      (if Hidden(e.name) || e.node.Absent? || e.node.Link? then [] else [e]) + Counted(entries[1..])
  }

  /** Entries named with a leading '.', symbolic links and entries gone before their lstat add
      nothing to a directory's size. */
  lemma {:induction false} CountedSize(entries: seq<Entry>)
    ensures EntriesSize(Counted(entries)) == EntriesSize(entries)
    ensures forall i :: 0 <= i < |Counted(entries)| ==>
      !Hidden(Counted(entries)[i].name) && !Counted(entries)[i].node.Link?
    decreases |entries|
  {
    if entries != [] {
      CountedSize(entries[1..]);
      var e := entries[0];
      var rest := Counted(entries[1..]);
      assert EntriesSize(entries) == AddSize(EntrySize(e), EntriesSize(entries[1..]));
      if Hidden(e.name) || e.node.Absent? || e.node.Link? {
        assert EntrySize(e) == Some(0);
        assert Counted(entries) == rest;
      } else {
        assert Counted(entries) == [e] + rest;
        assert ([e] + rest)[0] == e && ([e] + rest)[1..] == rest;
        assert EntriesSize([e] + rest) == AddSize(EntrySize(e), EntriesSize(rest));
      }
    }
  }

  /** A directory's size is the same whichever way its entries are split. */
  lemma {:induction false} EntriesSizeConcat(a: seq<Entry>, b: seq<Entry>)
    ensures EntriesSize(a + b) == AddSize(EntriesSize(a), EntriesSize(b))
    decreases |a|
  {
    if a != [] {
      assert (a + b)[0] == a[0] && (a + b)[1..] == a[1..] + b;
      EntriesSizeConcat(a[1..], b);
      assert EntriesSize(a + b) == AddSize(EntrySize(a[0]), EntriesSize(a[1..] + b));
      assert EntriesSize(a) == AddSize(EntrySize(a[0]), EntriesSize(a[1..]));
    } else {
      assert a + b == b;
    }
  }

  // ----- computeAppUsage -----

  /** computeAppUsage over what lstat reports for each tracked directory: the sum of their sizes,
      with a directory whose walk throws counted as 0. */
  function AppUsage(roots: seq<Node>): (r: nat)
    ensures (forall i :: 0 <= i < |roots| ==> NodeSize(roots[i]).None?) ==> r == 0
  {
    if roots == [] then 0
    else
      assert forall i :: 0 <= i < |roots| - 1 ==> roots[..|roots| - 1][i] == roots[i];
      AppUsage(roots[..|roots| - 1]) + NodeSize(roots[|roots| - 1]).GetOr(0)
  }

  /** The usage is at least the size of any tracked directory that can be measured. */
  lemma {:induction false} AppUsageBounds(roots: seq<Node>)
    ensures forall i :: 0 <= i < |roots| && NodeSize(roots[i]).Some? ==> NodeSize(roots[i]).value <= AppUsage(roots)
  {
    if roots != [] {
      var init := roots[..|roots| - 1];
      AppUsageBounds(init);
      assert forall i :: 0 <= i < |init| ==> init[i] == roots[i];
    }
  }

  lemma AppUsageNext(roots: seq<Node>, k: nat)
    requires k < |roots|
    ensures AppUsage(roots[..k + 1]) == AppUsage(roots[..k]) + NodeSize(roots[k]).GetOr(0)
  {
    assert roots[..k + 1][..k] == roots[..k];
  }

  // ----- sample -----

  /** What sample resolves to. */
  datatype Summary = Summary(totalBytes: Number, usedBytes: Number, freeBytes: Number, appBytes: nat,
                             otherBytes: Number, filesystem: string, mountpoint: string)

  /** The arithmetic of sample: used and free clamped at 0, the total at least their sum, and the
      used bytes outside the application's directories. Whatever df reported, each figure is NaN or
      at least 0, the total is NaN or at least used + free, and other is NaN or within [0, used]. */
  function SampleFigures(disk: DiskStats, appBytes: nat): (s: Summary)
    ensures s.appBytes == appBytes && s.filesystem == disk.filesystem && s.mountpoint == disk.mount
    ensures !s.usedBytes.NaN? ==> AtMost(Finite(0.0), s.usedBytes)
    ensures !s.freeBytes.NaN? ==> AtMost(Finite(0.0), s.freeBytes)
    ensures !s.totalBytes.NaN? ==> AtMost(Add(s.usedBytes, s.freeBytes), s.totalBytes)
    ensures !s.otherBytes.NaN? ==> AtMost(Finite(0.0), s.otherBytes) && AtMost(s.otherBytes, s.usedBytes)
  {
    var used := Max(disk.used, Finite(0.0));
    var free := Max(disk.available, Finite(0.0));
    Summary(Max(disk.total, Add(used, free)), used, free, appBytes, Max(Subtract(used, Finite(appBytes as real)), Finite(0.0)),
            disk.filesystem, disk.mount)
  }

  /** With finite df figures every figure of the summary is finite, and
      used + free <= total and 0 <= other <= used hold as plain inequalities. */
  lemma SampleFinite(disk: DiskStats, appBytes: nat)
    requires disk.total.Finite? && disk.used.Finite? && disk.available.Finite?
    ensures var s := SampleFigures(disk, appBytes);
      s.totalBytes.Finite? && s.usedBytes.Finite? && s.freeBytes.Finite? && s.otherBytes.Finite?
      && 0.0 <= s.usedBytes.v && 0.0 <= s.freeBytes.v && s.usedBytes.v + s.freeBytes.v <= s.totalBytes.v
      && 0.0 <= s.otherBytes.v <= s.usedBytes.v
      && (s.usedBytes.v >= appBytes as real ==> s.otherBytes.v == s.usedBytes.v - appBytes as real)
  {
  }

  /** sample, given the disk report and the application's usage: it fails when getDiskStats does. */
  function Sampled(disk: Result<DiskStats>, appBytes: nat): (r: Result<Summary>)
    ensures r.Err? <==> disk.Err?
    ensures r.Err? ==> r.message == disk.message
    ensures r.Ok? ==> r.value.appBytes == appBytes && r.value.mountpoint == disk.value.mount
  {
    match disk
    case Err(message) => Err(message)
    case Ok(stats) => Ok(SampleFigures(stats, appBytes))
  }

  // ----- StorageService -----

  const DefaultTrackedDirs: seq<string> := ["media", "assets", "data"]

  /** CACHE_TTL_MS: one minute. */
  const CacheTtlMs: int := 60 * 1000

  /** Whether getSummary answers from the cache. */
  predicate CacheHit(forceFresh: bool, cache: Option<Summary>, cacheTimestamp: int, now: int) {
    !forceFresh && cache.Some? && now - cacheTimestamp < CacheTtlMs
  }

  /** A summary cached at t answers every request that does not ask for a fresh one up to one
      minute after t, and none from then on; a request for a fresh summary never gets it. */
  lemma CacheHitWindow(c: Summary, t: int)
    ensures forall now :: t <= now < t + CacheTtlMs ==> CacheHit(false, Some(c), t, now)
    ensures forall now :: now >= t + CacheTtlMs ==> !CacheHit(false, Some(c), t, now)
    ensures forall now :: !CacheHit(true, Some(c), t, now)
  {
  }

  /** path.join(rootDir, relativeDir) for a relative directory name. */
  function JoinPath(rootDir: string, relativeDir: string): string {
    rootDir + "/" + relativeDir
  }

  /** What lstat reports for a path of a file system given as a map; paths not in it do not exist. */
  function LookupPath(fileSystem: map<string, Node>, path: string): Node {
    if path in fileSystem then fileSystem[path] else Absent
  }

  class StorageService {
    const rootDir: string
    const trackedDirs: seq<string>
    var cache: Option<Summary>
    var cacheTimestamp: int

    /** rootDir falls back to the server's parent directory when missing or empty, trackedDirs to
        the default list when missing. */
    constructor(rootDir: Option<string>, trackedDirs: Option<seq<string>>, parentDir: string)
      ensures this.rootDir == (if rootDir.Some? && rootDir.value != "" then rootDir.value else parentDir)
      ensures this.trackedDirs == trackedDirs.GetOr(DefaultTrackedDirs)
      ensures cache.None? && cacheTimestamp == 0
    {
      this.rootDir := if rootDir.Some? && rootDir.value != "" then rootDir.value else parentDir;
      this.trackedDirs := trackedDirs.GetOr(DefaultTrackedDirs);
      cache := None;
      cacheTimestamp := 0;
    }

    /** What lstat reports for each tracked directory. */
    function Roots(fileSystem: map<string, Node>): (roots: seq<Node>)
      ensures |roots| == |trackedDirs|
    {
      seq(|trackedDirs|, i requires 0 <= i < |trackedDirs| => LookupPath(fileSystem, JoinPath(rootDir, trackedDirs[i])))
    }

    /** computeAppUsage */
    method ComputeAppUsage(fileSystem: map<string, Node>) returns (total: nat)
      ensures total == AppUsage(Roots(fileSystem))
    {
      ghost var roots := Roots(fileSystem);
      total := 0;
      var k := 0;
      while k < |trackedDirs|
        invariant k <= |trackedDirs|
        invariant total == AppUsage(roots[..k])
      {
        var size := DirectorySize(LookupPath(fileSystem, JoinPath(rootDir, trackedDirs[k])));
        AppUsageNext(roots, k);
        total := total + size.GetOr(0);
        k := k + 1;
      }
      assert roots[..k] == roots;
    }

    /** What a new sample yields, given the outcome of `df -kP` and the file system. */
    function Fresh(df: Result<string>, fileSystem: map<string, Node>): Result<Summary> {
      Sampled(ParseDf(df), AppUsage(Roots(fileSystem)))
    }

    /** sample, given the outcome of `df -kP` on rootDir and the file system. */
    method Sample(df: Result<string>, fileSystem: map<string, Node>) returns (r: Result<Summary>)
      ensures r == Fresh(df, fileSystem)
    {
      var disk := ParseDf(df);
      if disk.Err? {
        return Err(disk.message);
      }
      var appBytes := ComputeAppUsage(fileSystem);
      r := Ok(SampleFigures(disk.value, appBytes));
    }

    /** getSummary at clock reading now: the cached summary while it is under a minute old and
        forceFresh is false; otherwise a new sample, which becomes the cache unless it fails. */
    method GetSummary(forceFresh: bool, now: int, df: Result<string>, fileSystem: map<string, Node>) returns (r: Result<Summary>)
      modifies this
      ensures CacheHit(forceFresh, old(cache), old(cacheTimestamp), now) ==>
        r == Ok(old(cache).value) && cache == old(cache) && cacheTimestamp == old(cacheTimestamp)
      ensures !CacheHit(forceFresh, old(cache), old(cacheTimestamp), now) ==> r == Fresh(df, fileSystem)
      ensures !CacheHit(forceFresh, old(cache), old(cacheTimestamp), now) && r.Ok? ==>
        cache == Some(r.value) && cacheTimestamp == now
      ensures r.Err? ==> cache == old(cache) && cacheTimestamp == old(cacheTimestamp)
      ensures !CacheHit(forceFresh, old(cache), old(cacheTimestamp), now) && r.Ok? ==>
        forall later :: now <= later < now + CacheTtlMs ==> CacheHit(false, cache, cacheTimestamp, later)
    {
      if CacheHit(forceFresh, cache, cacheTimestamp, now) {
        r := Ok(cache.value);
      } else {
        r := Sample(df, fileSystem);
        if r.Ok? {
          cache, cacheTimestamp := Some(r.value), now;
        }
      }
    }
  }
}
