/**
 * The signal-connection snapshot of the main window's source: the `.connect(` lines
 * between the `class MainWindow(` header and the line before the module's main
 * guard, each as `<line number>:<stripped line>`, and the text file they are written
 * to. Reading the file is left out: the lines are the input. Line numbers are 1-based.
 */
module SignalSnapshot {
  import opened Wrappers
  import opened Text

  const CLASS_HEADER: string := "class MainWindow("
  const MAIN_GUARD: string := "if __name__ == "
  const CONNECT: string := ".connect("

  /** Line `k` exists and starts with the class header. */
  predicate IsHeaderAt(lines: seq<string>, k: int) {
    1 <= k <= |lines| && StartsWith(lines[k - 1], CLASS_HEADER)
  }

  /** Line `k` exists and starts with the main guard. */
  predicate IsGuardAt(lines: seq<string>, k: int) {
    1 <= k <= |lines| && StartsWith(lines[k - 1], MAIN_GUARD)
  }

  /** The first line at or after line `i` that starts with the class header. */
  function ClassStartFrom(lines: seq<string>, i: nat): (start: Option<nat>)
    requires 1 <= i <= |lines| + 1
    ensures start.Some? ==> i <= start.value <= |lines| && IsHeaderAt(lines, start.value)
    ensures start.Some? ==> forall k :: i <= k < start.value ==> !IsHeaderAt(lines, k)
    ensures start.None? ==> forall k :: i <= k ==> !IsHeaderAt(lines, k)
    decreases |lines| + 1 - i
  {
    if i > |lines| then None
    else if StartsWith(lines[i - 1], CLASS_HEADER) then Some(i)
    else ClassStartFrom(lines, i + 1)
  }

  /** The line the class starts on: the first one starting with the class header. */
  function ClassStart(lines: seq<string>): Option<nat> {
    ClassStartFrom(lines, 1)
  }

  /**
   * The first line number `g` with `idx <= g < |lines|` and `g > start` that starts
   * with the main guard. The last line is never examined.
   */
  function GuardFrom(lines: seq<string>, start: nat, idx: nat): (g: Option<nat>)
    requires 1 <= start <= idx
    ensures g.Some? ==> start < g.value < |lines| && idx <= g.value && IsGuardAt(lines, g.value)
    ensures g.Some? ==> forall k :: idx <= k < g.value && k > start ==> !IsGuardAt(lines, k)
    ensures g.None? ==> forall k :: idx <= k < |lines| && k > start ==> !IsGuardAt(lines, k)
    decreases |lines| - idx
  {
    if idx >= |lines| then None
    else if idx > start && StartsWith(lines[idx - 1], MAIN_GUARD) then Some(idx)
    else GuardFrom(lines, start, idx + 1)
  }

  /** The class's last line: the one before the first main guard after the start and before the last line, else the last line. */
  function ClassEnd(lines: seq<string>, start: nat): (end: nat)
    requires 1 <= start <= |lines|
    ensures start <= end <= |lines|
  {
    match GuardFrom(lines, start, start)
    case None => |lines|
    case Some(g) => g - 1
  }

  /** The numbers of the lines in `[lo, hi]` that contain `.connect(`, in ascending order. */
  function ConnectLines(lines: seq<string>, lo: nat, hi: int): (ns: seq<nat>)
    requires 1 <= lo && hi <= |lines|
    ensures forall k :: 0 <= k < |ns| ==> lo <= ns[k] <= hi
    decreases hi - lo + 1
  {
    if hi < lo then []
    else ConnectLines(lines, lo, hi - 1) + (if Contains(lines[hi - 1], CONNECT) then [hi] else [])
  }

  /** One snapshot entry: `f"{lineno}:{line.strip()}"`. */
  function Entry(lineno: nat, line: string): string {
    NatToString(lineno) + ":" + Strip(line)
  }

  /** `f` applied to each element of `xs`, in order. */
  function MapSeq<A, B>(f: A -> B, xs: seq<A>): (ys: seq<B>)
    ensures |ys| == |xs|
  {
    if xs == [] then [] else MapSeq(f, xs[..|xs| - 1]) + [f(xs[|xs| - 1])]
  }

  /** Mapping one more element appends its image. */
  lemma {:induction false} MapSeqAppend<A, B>(f: A -> B, xs: seq<A>, x: A)
    ensures MapSeq(f, xs + [x]) == MapSeq(f, xs) + [f(x)]
  {
    assert (xs + [x])[..|xs|] == xs;
  }

  /** Element `k` of the image is the image of element `k`. */
  lemma {:induction false} MapSeqAt<A, B>(f: A -> B, xs: seq<A>, k: nat)
    requires k < |xs|
    ensures MapSeq(f, xs)[k] == f(xs[k])
  {
    if k < |xs| - 1 {
      var init := xs[..|xs| - 1];
      MapSeqAt(f, init, k);
      assert init[k] == xs[k];
    }
  }

  /** The entry of line number `n`, for the numbers of existing lines. */
  function EntryOf(lines: seq<string>): nat -> string {
    n => if 1 <= n <= |lines| then Entry(n, lines[n - 1]) else []
  }

  /** The entries for the given line numbers, in their order. */
  function Entries(lines: seq<string>, ns: seq<nat>): seq<string> {
    MapSeq(EntryOf(lines), ns)
  }

  /** What `build_snapshot` returns for the file's lines. */
  function Snapshot(lines: seq<string>): seq<string> {
    match ClassStart(lines)
    case None => []
    case Some(start) => Entries(lines, ConnectLines(lines, start, ClassEnd(lines, start)))
  }

  /** The text written to the output file: the entries joined by newlines, with a final newline when there are any. */
  function SnapshotText(snapshot: seq<string>): string {
    Join(snapshot, "\n") + (if snapshot != [] then "\n" else "")
  }

  /** The first loop of `build_snapshot`: scan for the class header. */
  method FindClassStart(lines: seq<string>) returns (classStart: Option<nat>)
    ensures classStart == ClassStart(lines)
  {
    classStart := None;
    var idx := 1;
    while idx <= |lines|
      invariant 1 <= idx <= |lines| + 1
      invariant ClassStartFrom(lines, idx) == ClassStart(lines)
    {
      if StartsWith(lines[idx - 1], CLASS_HEADER) {
        assert IsHeaderAt(lines, idx);
        classStart := Some(idx);
        return;
      }
      idx := idx + 1;
    }
  }

  /** The second loop of `build_snapshot`: scan from the class start for the main guard. */
  method FindClassEnd(lines: seq<string>, start: nat) returns (classEnd: nat)
    requires 1 <= start <= |lines|
    ensures classEnd == ClassEnd(lines, start)
  {
    classEnd := |lines|;
    var idx := start;
    while idx < |lines|
      invariant start <= idx
      invariant GuardFrom(lines, start, idx) == GuardFrom(lines, start, start)
    {
      if idx > start && StartsWith(lines[idx - 1], MAIN_GUARD) {
        assert IsGuardAt(lines, idx);
        classEnd := idx - 1;
        return;
      }
      idx := idx + 1;
    }
  }

  /** A step of the third loop over a line that contains `.connect(`: its entry is appended. */
  lemma {:induction false} CollectConnecting(lines: seq<string>, start: nat, lineno: nat)
    requires 1 <= start <= lineno <= |lines|
    requires Contains(lines[lineno - 1], CONNECT)
    ensures Entries(lines, ConnectLines(lines, start, lineno)) == Entries(lines, ConnectLines(lines, start, lineno - 1)) + [Entry(lineno, lines[lineno - 1])]
  {
    var before := ConnectLines(lines, start, lineno - 1);
    assert ConnectLines(lines, start, lineno) == before + [lineno];
    MapSeqAppend(EntryOf(lines), before, lineno);
    assert EntryOf(lines)(lineno) == Entry(lineno, lines[lineno - 1]);
  }

  /** A step of the third loop over a line without `.connect(`: nothing is added. */
  lemma {:induction false} CollectOther(lines: seq<string>, start: nat, lineno: nat)
    requires 1 <= start <= lineno <= |lines|
    requires !Contains(lines[lineno - 1], CONNECT)
    ensures Entries(lines, ConnectLines(lines, start, lineno)) == Entries(lines, ConnectLines(lines, start, lineno - 1))
  {
    assert ConnectLines(lines, start, lineno) == ConnectLines(lines, start, lineno - 1);
  }

  /** The third loop of `build_snapshot`: collect the entries of the connecting lines of the range. */
  method CollectEntries(lines: seq<string>, start: nat, classEnd: nat) returns (snapshot: seq<string>)
    requires 1 <= start <= classEnd + 1 && classEnd <= |lines|
    ensures snapshot == Entries(lines, ConnectLines(lines, start, classEnd))
  {
    snapshot := [];
    var lineno := start;
    while lineno <= classEnd
      invariant start <= lineno <= classEnd + 1
      invariant snapshot == Entries(lines, ConnectLines(lines, start, lineno - 1))
    {
      var line := lines[lineno - 1];
      if Contains(line, CONNECT) {
        CollectConnecting(lines, start, lineno);
        snapshot := snapshot + [Entry(lineno, line)];
      } else {
        CollectOther(lines, start, lineno);
      }
      lineno := lineno + 1;
    }
  }

  /**
   * `build_snapshot` on the file's lines: find the class start, then the class end,
   * then collect the entries of the connecting lines between them.
   */
  method BuildSnapshot(lines: seq<string>) returns (snapshot: seq<string>)
    ensures snapshot == Snapshot(lines)
  {
    var classStart := FindClassStart(lines);
    if classStart.None? {
      return [];
    }
    var start := classStart.value;
    var classEnd := FindClassEnd(lines, start);
    snapshot := CollectEntries(lines, start, classEnd);
  }

  /** The connecting lines of a range are exactly its lines that contain `.connect(`, in strictly ascending order. */
  lemma {:induction false} ConnectLinesExact(lines: seq<string>, lo: nat, hi: int)
    requires 1 <= lo && hi <= |lines|
    ensures forall n :: n in ConnectLines(lines, lo, hi) <==> lo <= n <= hi && Contains(lines[n - 1], CONNECT)
    ensures forall i, j :: 0 <= i < j < |ConnectLines(lines, lo, hi)| ==> ConnectLines(lines, lo, hi)[i] < ConnectLines(lines, lo, hi)[j]
    decreases hi - lo + 1
  {
    if hi >= lo {
      ConnectLinesExact(lines, lo, hi - 1);
    }
  }

  /** No class header anywhere: the snapshot is empty. */
  lemma {:induction false} NoClassNoSnapshot(lines: seq<string>)
    requires forall k :: !IsHeaderAt(lines, k)
    ensures Snapshot(lines) == []
  {
  }

  /**
   * The class range: it starts at the first header line; it ends just before the first
   * main-guard line that comes after the start and before the last line, and at the
   * last line when there is none.
   */
  lemma {:induction false} ClassRange(lines: seq<string>, start: nat)
    requires ClassStart(lines) == Some(start)
    ensures IsHeaderAt(lines, start) && forall k :: k < start ==> !IsHeaderAt(lines, k)
    ensures var end := ClassEnd(lines, start);
      && (end == |lines| <==> forall k :: start < k < |lines| ==> !IsGuardAt(lines, k))
      && (end < |lines| ==> IsGuardAt(lines, end + 1) && forall k :: start < k <= end ==> !IsGuardAt(lines, k))
  {
    var g := GuardFrom(lines, start, start);
    if g.Some? {
      assert IsGuardAt(lines, g.value);
    }
  }

  /**
   * Every entry of the snapshot is the entry of a connecting line inside the class range,
   * in strictly ascending line order, and no connecting line of the range is left out.
   */
  lemma {:induction false} SnapshotEntries(lines: seq<string>, start: nat)
    requires ClassStart(lines) == Some(start)
    ensures var ns := ConnectLines(lines, start, ClassEnd(lines, start));
      && Snapshot(lines) == Entries(lines, ns)
      && (forall n :: n in ns <==> start <= n <= ClassEnd(lines, start) && Contains(lines[n - 1], CONNECT))
      && (forall i, j :: 0 <= i < j < |ns| ==> ns[i] < ns[j])
  {
    ConnectLinesExact(lines, start, ClassEnd(lines, start));
  }

  /** An entry reads back: the text before its first colon is its line number, the rest its stripped line. */
  lemma {:induction false} EntryRoundTrip(lineno: nat, line: string)
    ensures var parts := SplitOn(Entry(lineno, line), ':');
      ParseInt(parts[0]) == Some(lineno as int) && Join(parts[1..], ":") == Strip(line)
  {
    var d := NatToString(lineno);
    assert ':' !in d by {
      forall k | 0 <= k < |d| ensures d[k] != ':' {
        assert IsDigit(d[k]);
      }
    }
    SplitOnAtSeparator(d, Strip(line), ':');
    assert Entry(lineno, line) == d + [':'] + Strip(line);
    ParseIntOfIntToString(lineno);
    JoinSplitOn(Strip(line), ':');
  }

  /** The file is empty exactly when the snapshot is, and otherwise ends with a newline. */
  lemma {:induction false} SnapshotTextShape(snapshot: seq<string>)
    ensures SnapshotText(snapshot) == [] <==> snapshot == []
    ensures snapshot != [] ==> var t := SnapshotText(snapshot); t[|t| - 1] == '\n'
  {
  }

  /** Newline-free entries read back from the file: splitting it without its final newline gives them. */
  lemma {:induction false} SnapshotTextRoundTrip(snapshot: seq<string>)
    requires snapshot != []
    requires forall k :: 0 <= k < |snapshot| ==> '\n' !in snapshot[k]
    ensures var t := SnapshotText(snapshot); SplitOn(t[..|t| - 1], '\n') == snapshot
  {
    var t := SnapshotText(snapshot);
    assert t[..|t| - 1] == Join(snapshot, "\n");
    assert "\n" == ['\n'] + [];
    SplitOnJoin(snapshot, '\n', []);
    var p := Prefixed(snapshot, []);
    forall k | 0 <= k < |p| ensures p[k] == snapshot[k] {
      if k > 0 {
        assert p[k] == [] + snapshot[k];
      }
    }
  }

  /** An entry of a newline-free line holds no newline. */
  lemma {:induction false} EntryNoNewline(lineno: nat, line: string)
    requires '\n' !in line
    ensures '\n' !in Entry(lineno, line)
  {
    var d := NatToString(lineno);
    StripKeepsOut(line, '\n');
    forall m | 0 <= m < |d| ensures d[m] != '\n' {
      assert IsDigit(d[m]);
    }
  }

  /** A snapshot of lines without newlines has newline-free entries, so it reads back from its file. */
  lemma {:induction false} SnapshotFileRoundTrip(lines: seq<string>)
    requires forall k :: 0 <= k < |lines| ==> '\n' !in lines[k]
    requires Snapshot(lines) != []
    ensures var t := SnapshotText(Snapshot(lines)); SplitOn(t[..|t| - 1], '\n') == Snapshot(lines)
  {
    var start := ClassStart(lines).value;
    var ns := ConnectLines(lines, start, ClassEnd(lines, start));
    var s := Entries(lines, ns);
    assert Snapshot(lines) == s;
    forall k | 0 <= k < |s| ensures '\n' !in s[k] {
      MapSeqAt(EntryOf(lines), ns, k);
      EntryNoNewline(ns[k], lines[ns[k] - 1]);
    }
    SnapshotTextRoundTrip(s);
  }
}
