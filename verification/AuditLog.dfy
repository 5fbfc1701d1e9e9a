// The audit log of crates/dr-dsh-daemon/src/audit.rs: retention applied line by line as events are
// recorded, against the retention of the whole history at once.
module AuditLog {
  import Utf8

  const MAX_LINES: nat := 10000
  const MAX_AGE_MS: nat := 30 * 24 * 60 * 60 * 1000
  const MAX_REASON_LEN: nat := 200

  // A line of the file: an entry with its time, a line that is not an entry, or a blank one.
  datatype Line = Dated(atMs: nat, text: string) | Unreadable(text: string) | Blank

  function Cutoff(nowMs: nat): nat
  {
    if nowMs < MAX_AGE_MS then 0 else nowMs - MAX_AGE_MS
  }

  predicate Old(line: Line, cutoff: nat)
  {
    line.Dated? && line.atMs < cutoff
  }

  // ---------------------------------------------------------- batch retention

  // What is left of a history: no blank lines, nothing older than the cutoff.
  function Filtered(lines: seq<Line>, cutoff: nat): seq<Line>
  {
    if lines == [] then []
    else
      var n := |lines| - 1;
      Filtered(lines[..n], cutoff) + if lines[n].Blank? || Old(lines[n], cutoff) then [] else [lines[n]]
  }

  function Newest(lines: seq<Line>, cap: nat): (r: seq<Line>)
    ensures |r| == if |lines| < cap then |lines| else cap
  {
    if |lines| <= cap then lines else lines[|lines| - cap..]
  }

  function Retained(lines: seq<Line>, nowMs: nat, cap: nat): seq<Line>
  {
    Newest(Filtered(lines, Cutoff(nowMs)), cap)
  }

  // ---------------------------------------------------- what retention keeps

  // The lines for which something holds, in order.
  function Select(lines: seq<Line>, keep: Line -> bool): seq<Line>
  {
    if lines == [] then []
    else
      var n := |lines| - 1;
      Select(lines[..n], keep) + if keep(lines[n]) then [lines[n]] else []
  }

  // An entry is past the window when it is more than thirty days old.
  predicate PastWindow(line: Line, nowMs: nat)
  {
    line.Dated? && line.atMs + 30 * 24 * 60 * 60 * 1000 < nowMs
  }

  lemma {:induction false} FilteredIsSelect(lines: seq<Line>, nowMs: nat, keep: Line -> bool)
    requires forall line :: keep(line) <==> !line.Blank? && !PastWindow(line, nowMs)
    ensures Filtered(lines, Cutoff(nowMs)) == Select(lines, keep)
  {
    if lines != [] {
      FilteredIsSelect(lines[..|lines| - 1], nowMs, keep);
    }
  }

  lemma {:induction false} SelectAll(lines: seq<Line>, some: Line -> bool, all: Line -> bool)
    requires forall k :: 0 <= k < |lines| ==> (some(lines[k]) <==> all(lines[k]))
    ensures Select(lines, some) == Select(lines, all)
  {
    if lines != [] {
      SelectAll(lines[..|lines| - 1], some, all);
    }
  }

  lemma {:induction false} SelectedHold(lines: seq<Line>, keep: Line -> bool, all: Line -> bool)
    requires forall k :: 0 <= k < |lines| && keep(lines[k]) ==> all(lines[k])
    ensures forall k :: 0 <= k < |Select(lines, keep)| ==> all(Select(lines, keep)[k])
  {
    if lines != [] {
      SelectedHold(lines[..|lines| - 1], keep, all);
    }
  }

  lemma SelectedStay(lines: seq<Line>, keep: Line -> bool, all: Line -> bool)
    requires forall k :: 0 <= k < |lines| && keep(lines[k]) ==> all(lines[k])
    ensures Select(Select(lines, keep), all) == Select(lines, keep)
  {
    SelectedHold(lines, keep, all);
    SelectEvery(Select(lines, keep), all);
  }

  lemma {:induction false} SelectTail(lines: seq<Line>, all: Line -> bool, from: nat)
    requires from <= |lines| && Select(lines, all) == lines
    ensures Select(lines[from..], all) == lines[from..]
  {
    AllSelected(lines, all);
    SelectEvery(lines[from..], all);
  }

  lemma {:induction false} SelectEvery(lines: seq<Line>, all: Line -> bool)
    requires forall k :: 0 <= k < |lines| ==> all(lines[k])
    ensures Select(lines, all) == lines
  {
    if lines != [] {
      SelectEvery(lines[..|lines| - 1], all);
    }
  }

  lemma {:induction false} SelectShrinks(lines: seq<Line>, all: Line -> bool)
    ensures |Select(lines, all)| <= |lines|
  {
    if lines != [] {
      SelectShrinks(lines[..|lines| - 1], all);
    }
  }

  lemma {:induction false} AllSelected(lines: seq<Line>, all: Line -> bool)
    requires Select(lines, all) == lines
    ensures forall k :: 0 <= k < |lines| ==> all(lines[k])
  {
    if lines != [] {
      var n := |lines| - 1;
      SelectShrinks(lines[..n], all);
      AllSelected(lines[..n], all);
      assert forall k :: 0 <= k < n ==> lines[..n][k] == lines[k];
    }
  }

  lemma NewestStay(young: seq<Line>, written: Line -> bool)
    requires Select(young, written) == young
    ensures Select(Newest(young, MAX_LINES), written) == if |young| <= 10000 then young else young[|young| - 10000..]
  {
    SelectTail(young, written, if |young| <= 10000 then 0 else |young| - 10000);
  }

  // Pruning leaves, of the lines that are not blank, the newest ten thousand of those that are not entries past the
  // window, in their order; unreadable lines are never too old.
  lemma PrunedMeans(lines: seq<Line>, nowMs: nat, keep: Line -> bool, written: Line -> bool)
    requires forall line :: keep(line) <==> !line.Blank? && !PastWindow(line, nowMs)
    requires forall line :: written(line) <==> !line.Blank?
    ensures (var young := Select(lines, keep);
             Select(Pruned(lines, nowMs), written) == if |young| <= 10000 then young else young[|young| - 10000..])
  {
    var young := Select(lines, keep);
    FilteredIsSelect(lines, nowMs, keep);
    if Kept(lines, nowMs) {
      SelectAll(lines, written, keep);
    } else {
      SelectedStay(lines, keep, written);
      NewestStay(young, written);
    }
  }

  // Reading splits the file by the same window.
  lemma {:induction false} ReadMeans(lines: seq<Line>, nowMs: nat, keep: Line -> bool, past: Line -> bool, bad: Line -> bool)
    requires forall line :: keep(line) <==> line.Dated? && !PastWindow(line, nowMs)
    requires forall line :: past(line) <==> PastWindow(line, nowMs)
    requires forall line :: bad(line) <==> line.Unreadable?
    ensures Filtered(OnlyDated(lines), Cutoff(nowMs)) == Select(lines, keep)
    ensures CountOld(lines, Cutoff(nowMs)) == |Select(lines, past)| && OnlyUnreadable(lines) == Select(lines, bad)
  {
    if lines != [] {
      var n := |lines| - 1;
      ReadMeans(lines[..n], nowMs, keep, past, bad);
      NextLine(lines, n, Cutoff(nowMs));
      assert lines[..n + 1] == lines;
    }
  }

  // ------------------------------------------------------------- the log file

  class AuditLog {
    var lines: seq<Line>
    // How often the file was rewritten rather than appended to.
    var rewrites: nat

    constructor (lines: seq<Line>)
      ensures this.lines == lines && rewrites == 0
    {
      this.lines, rewrites := lines, 0;
    }

    // Appends one line, then applies the retention policy at the time the pruning looks at the clock.
    method AppendAndPrune(line: Line, pruneAtMs: nat)
      modifies this
      ensures lines == Recording(old(lines), line, pruneAtMs) == Pruned(old(lines) + [line], pruneAtMs)
    {
      lines := lines + [line];
      Prune(pruneAtMs);
    }

    // Drops what is too old or beyond the cap, and leaves the file alone when that is nothing.
    method Prune(nowMs: nat)
      modifies this
      ensures lines == Pruned(old(lines), nowMs)
      ensures rewrites == old(rewrites) + if Kept(old(lines), nowMs) then 0 else 1
    {
      var cutoff := Cutoff(nowMs);
      var keep: seq<Line> := [];
      var droppedOld := false;
      var i := 0;
      while i < |lines|
        invariant 0 <= i <= |lines|
        invariant keep == Filtered(lines[..i], cutoff)
        invariant droppedOld <==> exists k :: 0 <= k < i && Old(lines[k], cutoff)
      {
        assert lines[..i + 1][..i] == lines[..i];
        if !lines[i].Blank? {
          if Old(lines[i], cutoff) {
            droppedOld := true;
          } else {
            keep := keep + [lines[i]];
          }
        }
        i := i + 1;
      }
      assert lines[..i] == lines;
      var droppedOverCap := false;
      if |keep| > MAX_LINES {
        var excess := |keep| - MAX_LINES;
        keep := keep[excess..];
        droppedOverCap := true;
      }
      if !droppedOld && !droppedOverCap {
        return;
      }
      lines := keep;
      rewrites := rewrites + 1;
    }

    // Splits the file into entries within the window, a count of older ones, and unreadable lines.
    method Read(nowMs: nat) returns (entries: seq<Line>, tooOld: nat, unreadable: seq<Line>)
      ensures entries == Filtered(OnlyDated(lines), Cutoff(nowMs))
      ensures tooOld == CountOld(lines, Cutoff(nowMs))
      ensures unreadable == OnlyUnreadable(lines)
    {
      var cutoff := Cutoff(nowMs);
      entries, tooOld, unreadable := [], 0, [];
      var i := 0;
      while i < |lines|
        invariant 0 <= i <= |lines|
        invariant entries == Filtered(OnlyDated(lines[..i]), cutoff)
        invariant tooOld == CountOld(lines[..i], cutoff)
        invariant unreadable == OnlyUnreadable(lines[..i])
      {
        NextLine(lines, i, cutoff);
        match lines[i] {
          case Dated(atMs, _) =>
            if atMs < cutoff {
              tooOld := tooOld + 1;
            } else {
              entries := entries + [lines[i]];
            }
          case Unreadable(_) => unreadable := unreadable + [lines[i]];
          case Blank =>
        }
        i := i + 1;
      }
      assert lines[..i] == lines;
    }
  }

  function OnlyDated(lines: seq<Line>): seq<Line>
  {
    if lines == [] then []
    else OnlyDated(lines[..|lines| - 1]) + if lines[|lines| - 1].Dated? then [lines[|lines| - 1]] else []
  }

  function OnlyUnreadable(lines: seq<Line>): seq<Line>
  {
    if lines == [] then []
    else OnlyUnreadable(lines[..|lines| - 1]) + if lines[|lines| - 1].Unreadable? then [lines[|lines| - 1]] else []
  }

  function CountOld(lines: seq<Line>, cutoff: nat): nat
  {
    if lines == [] then 0
    else CountOld(lines[..|lines| - 1], cutoff) + if Old(lines[|lines| - 1], cutoff) then 1 else 0
  }

  lemma NextLine(lines: seq<Line>, i: nat, cutoff: nat)
    requires i < |lines|
    ensures Filtered(OnlyDated(lines[..i + 1]), cutoff)
         == Filtered(OnlyDated(lines[..i]), cutoff) + if lines[i].Dated? && !Old(lines[i], cutoff) then [lines[i]] else []
    ensures OnlyUnreadable(lines[..i + 1]) == OnlyUnreadable(lines[..i]) + if lines[i].Unreadable? then [lines[i]] else []
    ensures CountOld(lines[..i + 1], cutoff) == CountOld(lines[..i], cutoff) + if Old(lines[i], cutoff) then 1 else 0
  {
    assert lines[..i + 1][..i] == lines[..i];
    FilteredAppend(OnlyDated(lines[..i]), lines[i], cutoff);
    assert OnlyDated(lines[..i + 1]) == if lines[i].Dated? then OnlyDated(lines[..i]) + [lines[i]] else OnlyDated(lines[..i]);
  }

  // Whether pruning leaves the file as it is.
  ghost predicate Kept(lines: seq<Line>, nowMs: nat)
  {
    |Filtered(lines, Cutoff(nowMs))| <= MAX_LINES && forall k :: 0 <= k < |lines| ==> !Old(lines[k], Cutoff(nowMs))
  }

  ghost function Pruned(lines: seq<Line>, nowMs: nat): seq<Line>
  {
    if Kept(lines, nowMs) then lines else Retained(lines, nowMs, MAX_LINES)
  }

  ghost function Recording(lines: seq<Line>, line: Line, nowMs: nat): seq<Line>
  {
    Pruned(lines + [line], nowMs)
  }

  lemma FilteredAppend(lines: seq<Line>, line: Line, cutoff: nat)
    ensures Filtered(lines + [line], cutoff)
         == Filtered(lines, cutoff) + if line.Blank? || Old(line, cutoff) then [] else [line]
  {
    assert (lines + [line])[..|lines|] == lines;
  }

  // ------------------------------------------------- incremental equals batch

  // No blank line, and the entries in the order of their times. Unreadable lines may stand anywhere.
  predicate Ordered(lines: seq<Line>)
  {
    && (forall i :: 0 <= i < |lines| ==> !lines[i].Blank?)
    && (forall i, j :: 0 <= i <= j < |lines| && lines[i].Dated? && lines[j].Dated? ==> lines[i].atMs <= lines[j].atMs)
  }

  lemma {:induction false} FilteredConcat(a: seq<Line>, b: seq<Line>, cutoff: nat)
    ensures Filtered(a + b, cutoff) == Filtered(a, cutoff) + Filtered(b, cutoff)
  {
    if b == [] {
      assert a + b == a;
    } else {
      var front, last := b[..|b| - 1], b[|b| - 1];
      FilteredConcat(a, front, cutoff);
      FilteredAppend(a + front, last, cutoff);
      FilteredAppend(front, last, cutoff);
      assert a + b == (a + front) + [last] && b == front + [last];
    }
  }

  // The tail from i holds what lies between i and j and the tail from j.
  lemma TailSplits(lines: seq<Line>, i: nat, j: nat, cutoff: nat)
    requires i <= j <= |lines|
    ensures Filtered(lines[i..], cutoff) == Filtered(lines[i..j], cutoff) + Filtered(lines[j..], cutoff)
  {
    assert lines[i..] == lines[i..j] + lines[j..];
    FilteredConcat(lines[i..j], lines[j..], cutoff);
  }

  lemma TailStep(lines: seq<Line>, i: nat, cutoff: nat)
    requires i < |lines|
    ensures |Filtered(lines[i..], cutoff)|
         == |Filtered(lines[i + 1..], cutoff)| + if lines[i].Blank? || Old(lines[i], cutoff) then 0 else 1
  {
    TailSplits(lines, i, i + 1, cutoff);
    assert lines[i..i + 1] == [] + [lines[i]];
    FilteredAppend([], lines[i], cutoff);
  }

  lemma {:induction false} FilteredEmptyIff(lines: seq<Line>, cutoff: nat)
    ensures Filtered(lines, cutoff) == [] <==> forall i :: 0 <= i < |lines| ==> lines[i].Blank? || Old(lines[i], cutoff)
  {
    if lines != [] {
      var front, last := lines[..|lines| - 1], lines[|lines| - 1];
      FilteredEmptyIff(front, cutoff);
      assert forall i :: 0 <= i < |front| ==> front[i] == lines[i];
      if forall i :: 0 <= i < |front| ==> front[i].Blank? || Old(front[i], cutoff) {
        assert forall i :: 0 <= i < |lines| - 1 ==> lines[i] == front[i];
      }
    }
  }

  // Where the cap begins to keep: the first position whose tail has no more survivors than the cap.
  ghost function CapStart(lines: seq<Line>, cutoff: nat, cap: nat, from: nat): (r: nat)
    requires from <= |lines|
    ensures from <= r <= |lines| && |Filtered(lines[r..], cutoff)| <= cap
    ensures forall j :: from <= j < r ==> |Filtered(lines[j..], cutoff)| > cap
    decreases |lines| - from
  {
    if |Filtered(lines[from..], cutoff)| <= cap then from else CapStart(lines, cutoff, cap, from + 1)
  }

  // The newest survivors of a tail are the survivors of a shorter tail.
  lemma NewestIsTail(lines: seq<Line>, from: nat, cutoff: nat, cap: nat)
    requires from <= |lines|
    ensures (var b := CapStart(lines, cutoff, cap, 0);
             Newest(Filtered(lines[from..], cutoff), cap) == Filtered(lines[if from < b then b else from..], cutoff))
  {
    var b := CapStart(lines, cutoff, cap, 0);
    if from < b {
      TailStep(lines, b - 1, cutoff);
      TailSplits(lines, from, b, cutoff);
    } else {
      TailSplits(lines, b, from, cutoff);
    }
  }

  // Leaving the file alone is what the policy says when there is nothing to drop.
  lemma PrunedIsRetained(lines: seq<Line>, nowMs: nat)
    requires forall i :: 0 <= i < |lines| ==> !lines[i].Blank?
    ensures Pruned(lines, nowMs) == Retained(lines, nowMs, MAX_LINES)
  {
    if Kept(lines, nowMs) {
      AllYoung(lines, Cutoff(nowMs));
    }
  }

  lemma AllYoung(lines: seq<Line>, cutoff: nat)
    requires forall i :: 0 <= i < |lines| ==> !lines[i].Blank? && !Old(lines[i], cutoff)
    ensures Filtered(lines, cutoff) == lines
  {
    YoungPrefix(lines, |lines|, cutoff);
    assert lines[..|lines|] == lines;
  }

  lemma {:induction false} YoungPrefix(lines: seq<Line>, k: nat, cutoff: nat)
    requires k <= |lines| && forall i :: 0 <= i < |lines| ==> !lines[i].Blank? && !Old(lines[i], cutoff)
    ensures Filtered(lines[..k], cutoff) == lines[..k]
  {
    if k > 0 {
      YoungPrefix(lines, k - 1, cutoff);
      assert lines[..k] == lines[..k - 1] + [lines[k - 1]];
      FilteredAppend(lines[..k - 1], lines[k - 1], cutoff);
    }
  }

  // Filtering twice is filtering at the later cutoff.
  lemma {:induction false} FilteredTwice(lines: seq<Line>, line: Line, earlier: nat, later: nat)
    requires earlier <= later
    ensures Filtered(Filtered(lines, earlier), later) == Filtered(lines, later)
    ensures Filtered(Filtered(lines, earlier) + [line], later) == Filtered(lines + [line], later)
  {
    if lines != [] {
      var n := |lines| - 1;
      FilteredTwice(lines[..n], lines[n], earlier, later);
      assert lines[..n] + [lines[n]] == lines;
      FilteredAppend(lines[..n], lines[n], earlier);
      FilteredAppend(lines[..n], lines[n], later);
      assert Filtered(lines[..n], earlier) + [] == Filtered(lines[..n], earlier);
    }
    FilteredAppend(lines, line, later);
    FilteredAppend(Filtered(lines, earlier), line, later);
  }

  lemma {:induction false} FilteredIsClean(lines: seq<Line>, cutoff: nat)
    ensures forall i :: 0 <= i < |Filtered(lines, cutoff)| ==>
      !Filtered(lines, cutoff)[i].Blank? && !Old(Filtered(lines, cutoff)[i], cutoff)
  {
    if lines != [] {
      FilteredIsClean(lines[..|lines| - 1], cutoff);
    }
  }

  // One recorded event: its entry, and the time its pruning looks at the clock.
  datatype Record = Record(line: Line, pruneAtMs: nat)

  ghost function Logged(before: seq<Line>, records: seq<Record>): seq<Line>
  {
    if records == [] then before
    else
      var last := records[|records| - 1];
      Recording(Logged(before, records[..|records| - 1]), last.line, last.pruneAtMs)
  }

  function History(before: seq<Line>, records: seq<Record>): seq<Line>
  {
    if records == [] then before
    else History(before, records[..|records| - 1]) + [records[|records| - 1].line]
  }

  function LastCutoff(records: seq<Record>): nat
    requires records != []
  {
    Cutoff(records[|records| - 1].pruneAtMs)
  }

  // A clock that never goes back, over a file without blank lines.
  ghost predicate Monotone(before: seq<Line>, records: seq<Record>)
  {
    && Ordered(History(before, records))
    && forall i, j :: 0 <= i <= j < |records| ==> records[i].pruneAtMs <= records[j].pruneAtMs
  }

  lemma {:induction false} HistoryPrefix(before: seq<Line>, records: seq<Record>, k: nat)
    requires k <= |records|
    ensures History(before, records[..k]) <= History(before, records)
  {
    if k == |records| {
      assert records[..k] == records;
    } else {
      var front := records[..|records| - 1];
      HistoryPrefix(before, front, k);
      assert front[..k] == records[..k];
    }
  }

  lemma MonotonePrefix(before: seq<Line>, records: seq<Record>, k: nat)
    requires Monotone(before, records) && k <= |records|
    ensures Monotone(before, records[..k])
  {
    HistoryPrefix(before, records, k);
    var h, g := History(before, records), History(before, records[..k]);
    assert forall i :: 0 <= i < |g| ==> g[i] == h[i];
  }

  // From where on the file still has the history: the farthest the cap has ever begun to keep.
  ghost function KeptFrom(before: seq<Line>, records: seq<Record>): (s: nat)
    ensures s <= |History(before, records)|
  {
    if records == [] then 0
    else
      var earlier := KeptFrom(before, records[..|records| - 1]);
      var b := CapStart(History(before, records), LastCutoff(records), MAX_LINES, 0);
      if earlier < b then b else earlier
  }

  // One more record: the survivors of a tail, with the line added and the cap applied.
  lemma NextTail(h: seq<Line>, s: nat, line: Line, earlier: nat, nowMs: nat)
    requires s <= |h| && earlier <= Cutoff(nowMs) && !line.Blank?
    ensures Recording(Filtered(h[s..], earlier), line, nowMs)
         == Newest(Filtered((h + [line])[s..], Cutoff(nowMs)), MAX_LINES)
  {
    var file := Filtered(h[s..], earlier);
    FilteredIsClean(h[s..], earlier);
    PrunedIsRetained(file + [line], nowMs);
    FilteredTwice(h[s..], line, earlier, Cutoff(nowMs));
    assert (h + [line])[s..] == h[s..] + [line];
  }

  // After any run of records the file is the survivors of the history from that position on.
  lemma {:induction false} LoggedIsTail(before: seq<Line>, records: seq<Record>)
    requires Monotone(before, records) && records != []
    ensures Logged(before, records) == Filtered(History(before, records)[KeptFrom(before, records)..], LastCutoff(records))
  {
    var n := |records| - 1;
    var front, last, all := records[..n], records[n], History(before, records);
    var s := KeptFrom(before, front);
    NewestIsTail(all, s, LastCutoff(records), MAX_LINES);
    assert all[|all| - 1] == last.line;
    if n == 0 {
      PrunedIsRetained(all, last.pruneAtMs);
      assert all[0..] == all;
    } else {
      MonotonePrefix(before, records, n);
      LoggedIsTail(before, front);
      assert front[n - 1] == records[n - 1];
      NextTail(History(before, front), s, last.line, LastCutoff(front), last.pruneAtMs);
    }
  }

  function Highest(b: seq<nat>): nat
  {
    if b == [] then 0
    else
      var h := Highest(b[..|b| - 1]);
      if h < b[|b| - 1] then b[|b| - 1] else h
  }

  lemma {:induction false} HighestIff(b: seq<nat>, p: nat)
    ensures p < Highest(b) <==> exists k :: 0 <= k < |b| && p < b[k]
  {
    if b != [] {
      var front := b[..|b| - 1];
      HighestIff(front, p);
      assert forall k :: 0 <= k < |front| ==> front[k] == b[k];
    }
  }

  // Where the cap began to keep after each record.
  ghost function CapStarts(before: seq<Line>, records: seq<Record>): (b: seq<nat>)
    ensures |b| == |records|
  {
    if records == [] then []
    else CapStarts(before, records[..|records| - 1]) + [CapStart(History(before, records), LastCutoff(records), MAX_LINES, 0)]
  }

  lemma {:induction false} KeptFromHighest(before: seq<Line>, records: seq<Record>)
    ensures KeptFrom(before, records) == Highest(CapStarts(before, records))
  {
    if records != [] {
      var front := records[..|records| - 1];
      KeptFromHighest(before, front);
      assert CapStarts(before, records)[..|records| - 1] == CapStarts(before, front);
    }
  }

  lemma {:induction false} CapStartsAt(before: seq<Line>, records: seq<Record>, k: nat)
    requires 0 < k <= |records|
    ensures CapStarts(before, records)[k - 1] == StartAfter(before, records[..k])
  {
    if k == |records| {
      assert records[..k] == records;
    } else {
      var front := records[..|records| - 1];
      CapStartsAt(before, front, k);
      assert front[..k] == records[..k];
    }
  }

  ghost function StartAfter(before: seq<Line>, records: seq<Record>): nat
    requires records != []
  {
    CapStart(History(before, records), LastCutoff(records), MAX_LINES, 0)
  }

  // A position is behind the file exactly when the cap has passed it after some record.
  lemma PassedSometime(before: seq<Line>, records: seq<Record>, p: nat) returns (k: nat)
    requires p < KeptFrom(before, records)
    ensures 0 < k <= |records| && p < StartAfter(before, records[..k])
  {
    KeptFromHighest(before, records);
    HighestIff(CapStarts(before, records), p);
    var i :| 0 <= i < |records| && p < CapStarts(before, records)[i];
    k := i + 1;
    CapStartsAt(before, records, k);
  }

  lemma PassedStays(before: seq<Line>, records: seq<Record>, k: nat, p: nat)
    requires 0 < k <= |records| && p < StartAfter(before, records[..k])
    ensures p < KeptFrom(before, records)
  {
    CapStartsAt(before, records, k);
    HighestIff(CapStarts(before, records), p);
    KeptFromHighest(before, records);
  }

  // How many survivors a history has after a position.
  function After(lines: seq<Line>, p: nat, cutoff: nat): nat
    requires p < |lines|
  {
    |Filtered(lines[p + 1..], cutoff)|
  }

  // The cap has passed a surviving line exactly when at least the cap's number of survivors follow it.
  lemma PassedBySurvivors(lines: seq<Line>, p: nat, cutoff: nat)
    requires p < |lines| && !lines[p].Blank? && !Old(lines[p], cutoff)
    ensures p < CapStart(lines, cutoff, MAX_LINES, 0) <==> After(lines, p, cutoff) >= MAX_LINES
  {
    var b := CapStart(lines, cutoff, MAX_LINES, 0);
    TailStep(lines, p, cutoff);
    if b <= p {
      TailSplits(lines, b, p, cutoff);
    }
  }

  // The exact condition, on the history alone: every unreadable line that the cap pushed out at some record
  // would also be pushed out by the batch, because as many survivors still follow it at the end.
  ghost predicate CapIsHarmless(before: seq<Line>, records: seq<Record>)
    requires records != []
  {
    forall k: nat, p: nat | 0 < k <= |records| && Pushed(before, records[..k], p) ::
      var all := History(before, records);
      p < |all| ==> After(all, p, LastCutoff(records)) >= MAX_LINES
  }

  // An unreadable line with at least the cap's number of survivors after it.
  ghost predicate Pushed(before: seq<Line>, records: seq<Record>, p: nat)
  {
    var h := History(before, records);
    records != [] && p < |h| && h[p].Unreadable? && After(h, p, LastCutoff(records)) >= MAX_LINES
  }

  // An entry that is still young at the end has only survivors after it, so it is never pushed out early.
  lemma YoungEntryStaysCovered(before: seq<Line>, records: seq<Record>, k: nat, p: nat)
    requires Monotone(before, records) && 0 < k <= |records|
    requires p < |History(before, records[..k])|
    requires (var h := History(before, records[..k]); h[p].Dated? && !Old(h[p], LastCutoff(records)))
    ensures p < |History(before, records)|
    ensures After(History(before, records[..k]), p, LastCutoff(records[..k])) <= After(History(before, records), p, LastCutoff(records))
  {
    HistoryPrefix(before, records, k);
    CoveredInExtension(History(before, records[..k]), History(before, records), p,
                       LastCutoff(records[..k]), LastCutoff(records));
  }

  lemma CoveredInExtension(h: seq<Line>, all: seq<Line>, p: nat, earlier: nat, cutoff: nat)
    requires h <= all && Ordered(all) && p < |h| && h[p].Dated? && !Old(h[p], cutoff)
    ensures After(h, p, earlier) <= After(all, p, cutoff)
  {
    var rest := h[p + 1..];
    assert forall i :: 0 <= i < |rest| ==> rest[i] == all[p + 1 + i];
    assert h[p] == all[p];
    AllYoung(rest, cutoff);
    FilteredIsShorter(rest, earlier);
    assert all[p + 1..] == rest + all[|h|..];
    FilteredConcat(rest, all[|h|..], cutoff);
  }

  lemma {:induction false} FilteredIsShorter(lines: seq<Line>, cutoff: nat)
    ensures |Filtered(lines, cutoff)| <= |lines|
  {
    if lines != [] {
      FilteredIsShorter(lines[..|lines| - 1], cutoff);
    }
  }

  // What the file lacks of the batch are the survivors between where the batch begins and where the
  // file does.
  lemma MissingPart(before: seq<Line>, records: seq<Record>)
    requires Monotone(before, records) && records != []
    ensures (var all, c := History(before, records), LastCutoff(records);
             var b, s := CapStart(all, c, MAX_LINES, 0), KeptFrom(before, records);
             && b <= s
             && Retained(all, records[|records| - 1].pruneAtMs, MAX_LINES) == Filtered(all[b..s], c) + Logged(before, records))
  {
    var all, c := History(before, records), LastCutoff(records);
    var b, s := CapStart(all, c, MAX_LINES, 0), KeptFrom(before, records);
    LoggedIsTail(before, records);
    NewestIsTail(all, 0, c, MAX_LINES);
    assert all[0..] == all;
    TailSplits(all, b, s, c);
  }

  // After any run of records, over any file without blank lines, the file is the policy applied once to
  // the whole history if and only if the cap did no harm.
  lemma IncrementalIsBatchIff(before: seq<Line>, records: seq<Record>)
    requires Monotone(before, records) && records != []
    ensures Logged(before, records) == Retained(History(before, records), records[|records| - 1].pruneAtMs, MAX_LINES)
       <==> CapIsHarmless(before, records)
  {
    var all, c := History(before, records), LastCutoff(records);
    var missing := all[CapStart(all, c, MAX_LINES, 0)..KeptFrom(before, records)];
    MissingPart(before, records);
    NothingAdded(Filtered(missing, c), Logged(before, records));
    FilteredEmptyIff(missing, c);
    MissingIff(before, records, missing);
  }

  lemma NothingAdded(a: seq<Line>, b: seq<Line>)
    ensures a + b == b <==> a == []
  {
    if a == [] {
      assert [] + b == b;
    } else {
      assert |a + b| > |b|;
    }
  }

  lemma MissingIff(before: seq<Line>, records: seq<Record>, missing: seq<Line>)
    requires Monotone(before, records) && records != []
    requires (var b, s := StartAfter(before, records), KeptFrom(before, records);
              b <= s && missing == History(before, records)[b..s])
    ensures (forall i :: 0 <= i < |missing| ==> missing[i].Blank? || Old(missing[i], LastCutoff(records)))
       <==> CapIsHarmless(before, records)
  {
    if CapIsHarmless(before, records) {
      HarmlessMissesOld(before, records, missing, StartAfter(before, records));
    } else {
      var i := HarmShows(before, records, missing);
    }
  }

  lemma HarmlessMissesOld(before: seq<Line>, records: seq<Record>, missing: seq<Line>, b: nat)
    requires Monotone(before, records) && records != [] && CapIsHarmless(before, records)
    requires b == StartAfter(before, records) <= KeptFrom(before, records)
    requires missing == History(before, records)[b..KeptFrom(before, records)]
    ensures forall i :: 0 <= i < |missing| ==> Old(missing[i], LastCutoff(records))
  {
    forall i | 0 <= i < |missing| ensures Old(missing[i], LastCutoff(records)) {
      HarmlessLeavesNothing(before, records, b + i);
      assert missing[i] == History(before, records)[b + i];
    }
  }

  lemma HarmShows(before: seq<Line>, records: seq<Record>, missing: seq<Line>) returns (i: nat)
    requires Monotone(before, records) && records != [] && !CapIsHarmless(before, records)
    requires (var b, s := StartAfter(before, records), KeptFrom(before, records);
              b <= s && missing == History(before, records)[b..s])
    ensures i < |missing| && missing[i].Unreadable?
  {
    var k, p := HarmWitness(before, records);
    HarmIsVisible(before, records, k, p);
    i := p - StartAfter(before, records);
    assert missing[i] == History(before, records)[p];
  }

  lemma HarmWitness(before: seq<Line>, records: seq<Record>) returns (k: nat, p: nat)
    requires records != [] && !CapIsHarmless(before, records)
    ensures 0 < k <= |records| && Pushed(before, records[..k], p)
    ensures p < |History(before, records)| && After(History(before, records), p, LastCutoff(records)) < MAX_LINES
  {
    k, p :| 0 < k <= |records| && Pushed(before, records[..k], p)
            && p < |History(before, records)| && After(History(before, records), p, LastCutoff(records)) < MAX_LINES;
  }

  // With a harmless cap, a survivor that was ever covered is covered at the end.
  lemma StaysCovered(before: seq<Line>, records: seq<Record>, k: nat, p: nat)
    requires Monotone(before, records) && records != [] && CapIsHarmless(before, records) && 0 < k <= |records|
    requires p < |History(before, records[..k])| <= |History(before, records)|
    requires After(History(before, records[..k]), p, LastCutoff(records[..k])) >= MAX_LINES
    requires !Old(History(before, records)[p], LastCutoff(records))
    ensures After(History(before, records), p, LastCutoff(records)) >= MAX_LINES
  {
    HistoryPrefix(before, records, k);
    if History(before, records)[p].Dated? {
      YoungEntryStaysCovered(before, records, k, p);
    } else {
      assert Pushed(before, records[..k], p);
    }
  }

  lemma HarmlessLeavesNothing(before: seq<Line>, records: seq<Record>, p: nat)
    requires Monotone(before, records) && records != [] && CapIsHarmless(before, records)
    requires CapStart(History(before, records), LastCutoff(records), MAX_LINES, 0) <= p < KeptFrom(before, records)
    ensures Old(History(before, records)[p], LastCutoff(records))
  {
    var all, c := History(before, records), LastCutoff(records);
    var k := PassedSometime(before, records, p);
    var h := History(before, records[..k]);
    HistoryPrefix(before, records, k);
    assert h[p] == all[p];
    assert records[..k][k - 1].pruneAtMs <= records[|records| - 1].pruneAtMs;
    if !Old(all[p], c) {
      PassedBySurvivors(h, p, LastCutoff(records[..k]));
      StaysCovered(before, records, k, p);
      PassedBySurvivors(all, p, c);
    }
  }

  lemma HarmIsVisible(before: seq<Line>, records: seq<Record>, k: nat, p: nat)
    requires Monotone(before, records) && 0 < k <= |records| && Pushed(before, records[..k], p)
    requires p < |History(before, records)| && After(History(before, records), p, LastCutoff(records)) < MAX_LINES
    ensures CapStart(History(before, records), LastCutoff(records), MAX_LINES, 0) <= p < KeptFrom(before, records)
    ensures History(before, records)[p].Unreadable?
  {
    HistoryPrefix(before, records, k);
    PassedBySurvivors(History(before, records[..k]), p, LastCutoff(records[..k]));
    PassedStays(before, records, k, p);
    PassedBySurvivors(History(before, records), p, LastCutoff(records));
  }

  // With only readable lines it always is.
  lemma IncrementalIsBatch(before: seq<Line>, records: seq<Record>)
    requires Monotone(before, records) && records != []
    requires forall i :: 0 <= i < |History(before, records)| ==> History(before, records)[i].Dated?
    ensures Logged(before, records) == Retained(History(before, records), records[|records| - 1].pruneAtMs, MAX_LINES)
  {
    forall k: nat, p: nat | 0 < k <= |records| ensures !Pushed(before, records[..k], p) {
      HistoryPrefix(before, records, k);
    }
    IncrementalIsBatchIff(before, records);
  }

  // And with any lines, as long as no record ever found more survivors than the cap.
  lemma UncappedIsBatch(before: seq<Line>, records: seq<Record>)
    requires Monotone(before, records) && records != []
    requires forall k :: 0 < k <= |records| ==> |Filtered(History(before, records[..k]), LastCutoff(records[..k]))| <= MAX_LINES
    ensures Logged(before, records) == Retained(History(before, records), records[|records| - 1].pruneAtMs, MAX_LINES)
  {
    forall k: nat, p: nat | 0 < k <= |records| ensures !Pushed(before, records[..k], p) {
      var h := History(before, records[..k]);
      assert h[0..] == h;
      if p < |h| {
        TailStep(h, p, LastCutoff(records[..k]));
        TailSplits(h, 0, p, LastCutoff(records[..k]));
      }
    }
    IncrementalIsBatchIff(before, records);
  }

  // Whatever the lines, the file stays ordered and within the cap, reading it at that moment hides
  // nothing, and it ends with the line just written exactly when that line is not past the window.
  lemma LogIsSound(before: seq<Line>, records: seq<Record>)
    requires Monotone(before, records) && records != []
    ensures (var log, last, c := Logged(before, records), records[|records| - 1], LastCutoff(records);
             && Ordered(log) && |log| <= MAX_LINES
             && Filtered(OnlyDated(log), c) == OnlyDated(log) && CountOld(log, c) == 0
             && ((log != [] && log[|log| - 1] == last.line) <==> !Old(last.line, c)))
  {
    var all, c, s := History(before, records), LastCutoff(records), KeptFrom(before, records);
    LoggedIsTail(before, records);
    TailSplits(all, CapStart(all, c, MAX_LINES, 0), s, c);
    TailIsOrdered(all, s);
    FilteredKeepsOrder(all[s..], c);
    FilteredIsClean(all[s..], c);
    NothingHidden(Filtered(all[s..], c), c);
    LastLine(all, s, c);
  }

  lemma TailIsOrdered(lines: seq<Line>, s: nat)
    requires Ordered(lines) && s <= |lines|
    ensures Ordered(lines[s..])
  {}

  lemma {:induction false} FilteredKeepsOrder(lines: seq<Line>, cutoff: nat)
    requires Ordered(lines)
    ensures Ordered(Filtered(lines, cutoff))
    ensures forall i :: 0 <= i < |Filtered(lines, cutoff)| ==> Filtered(lines, cutoff)[i] in lines
  {
    if lines != [] {
      var front, last := lines[..|lines| - 1], lines[|lines| - 1];
      FilteredKeepsOrder(front, cutoff);
      assert forall x :: x in front ==> x in lines;
      assert forall x :: x in front && x.Dated? && last.Dated? ==> x.atMs <= last.atMs;
    }
  }

  lemma LastLine(lines: seq<Line>, s: nat, cutoff: nat)
    requires Ordered(lines) && lines != [] && s <= |lines| && |Filtered(lines[s..], cutoff)| <= MAX_LINES
    requires s < |lines| || Old(lines[|lines| - 1], cutoff)
    ensures (var log, last := Filtered(lines[s..], cutoff), lines[|lines| - 1];
             (log != [] && log[|log| - 1] == last) <==> !Old(last, cutoff))
  {
    var log := Filtered(lines[s..], cutoff);
    FilteredIsClean(lines[s..], cutoff);
    if s < |lines| {
      assert lines[s..] == lines[s..|lines| - 1] + [lines[|lines| - 1]];
      FilteredAppend(lines[s..|lines| - 1], lines[|lines| - 1], cutoff);
    }
  }

  lemma {:induction false} NothingHidden(lines: seq<Line>, cutoff: nat)
    requires forall i :: 0 <= i < |lines| ==> !lines[i].Blank? && !Old(lines[i], cutoff)
    ensures Filtered(OnlyDated(lines), cutoff) == OnlyDated(lines) && CountOld(lines, cutoff) == 0
  {
    if lines != [] {
      var n := |lines| - 1;
      NothingHidden(lines[..n], cutoff);
      FilteredAppend(OnlyDated(lines[..n]), lines[n], cutoff);
      assert OnlyDated(lines[..n]) + [] == OnlyDated(lines[..n]);
    }
  }

  // ------------------------------------------------------- unreadable lines

  function Repeated(n: nat): (r: seq<Line>)
    ensures |r| == n && forall i :: 0 <= i < n ==> r[i] == Dated(0, "")
  {
    seq(n, _ => Dated(0, ""))
  }

  // With an unreadable line the two can differ. It is never too old, but a full file pushes it out,
  // and the batch over the whole history would still have it once the entries have aged away.
  lemma UnreadableLineIsLost()
    ensures (var before := [UNREADABLE] + Repeated(MAX_LINES - 1);
             var records := [Record(ZERO, 0), Record(LATE, MAX_AGE_MS + 1)];
             Logged(before, records) != Retained(History(before, records), MAX_AGE_MS + 1, MAX_LINES))
  {
    var before := [UNREADABLE] + Repeated(MAX_LINES - 1);
    var records := [Record(ZERO, 0), Record(LATE, MAX_AGE_MS + 1)];
    assert records[..1] == [records[0]] && [records[0]][..0] == [];
    FullFilePushesOut(before);
    EntriesAgeAway();
    assert Logged(before, [records[0]]) == Recording(before, ZERO, 0) == Repeated(MAX_LINES);
    assert Logged(before, records) == [LATE];
    assert History(before, [records[0]]) == before + [ZERO];
    assert History(before, records) == (before + [ZERO]) + [LATE];
    BatchKeepsIt(before);
  }

  const UNREADABLE: Line := Unreadable("?")
  const LATE: Line := Dated(MAX_AGE_MS + 1, "")

  lemma FullFilePushesOut(before: seq<Line>)
    requires before == [UNREADABLE] + Repeated(MAX_LINES - 1)
    ensures Recording(before, ZERO, 0) == Repeated(MAX_LINES)
  {
    var full := before + [ZERO];
    RepeatedStep([UNREADABLE], MAX_LINES);
    AllYoung(full, 0);
    assert Newest(full, MAX_LINES) == Repeated(MAX_LINES);
  }

  lemma EntriesAgeAway()
    ensures Recording(Repeated(MAX_LINES), LATE, MAX_AGE_MS + 1) == [LATE]
  {
    var cutoff := Cutoff(MAX_AGE_MS + 1);
    AgedAway([], MAX_LINES, cutoff);
    assert [] + Repeated(MAX_LINES) == Repeated(MAX_LINES);
    FilteredAppend(Repeated(MAX_LINES), LATE, cutoff);
    assert Old((Repeated(MAX_LINES) + [LATE])[0], cutoff);
  }

  lemma BatchKeepsIt(before: seq<Line>)
    requires before == [UNREADABLE] + Repeated(MAX_LINES - 1)
    ensures Retained((before + [ZERO]) + [LATE], MAX_AGE_MS + 1, MAX_LINES) == [UNREADABLE, LATE]
  {
    var cutoff := Cutoff(MAX_AGE_MS + 1);
    RepeatedStep([UNREADABLE], MAX_LINES);
    AgedAway([UNREADABLE], MAX_LINES, cutoff);
    FilteredAppend([], UNREADABLE, cutoff);
    assert [] + [UNREADABLE] == [UNREADABLE];
    FilteredAppend(before + [ZERO], LATE, cutoff);
  }

  const ZERO: Line := Dated(0, "")

  lemma RepeatedStep(front: seq<Line>, n: nat)
    requires n > 0
    ensures front + Repeated(n) == (front + Repeated(n - 1)) + [ZERO]
  {
    assert Repeated(n) == Repeated(n - 1) + [ZERO];
  }

  lemma {:induction false} AgedAway(front: seq<Line>, n: nat, cutoff: nat)
    requires cutoff > 0
    ensures Filtered(front + Repeated(n), cutoff) == Filtered(front, cutoff)
  {
    if n == 0 {
      assert front + Repeated(0) == front;
    } else {
      AgedAway(front, n - 1, cutoff);
      RepeatedStep(front, n);
      FilteredAppend(front + Repeated(n - 1), ZERO, cutoff);
    }
  }

  // ----------------------------------------------------------- reasons

  // Bytes of a character in UTF-8.
  function Utf8Len(c: char): nat
  {
    if c as int < 0x80 then 1 else if c as int < 0x800 then 2 else if c as int < 0x1_0000 then 3 else 4
  }

  function ByteLen(s: string): nat
  {
    if s == "" then 0 else ByteLen(s[..|s| - 1]) + Utf8Len(s[|s| - 1])
  }

  lemma {:induction false} EncodeSnoc(s: string, c: char)
    ensures |Utf8.Encode(s + [c])| == |Utf8.Encode(s)| + |Utf8.EncodeChar(c)|
  {
    if s == "" {
      assert [c][1..] == "";
    } else {
      assert (s + [c])[1..] == s[1..] + [c];
      EncodeSnoc(s[1..], c);
    }
  }

  lemma {:induction false} ByteLenIsEncoded(s: string)
    ensures ByteLen(s) == |Utf8.Encode(s)|
  {
    if s != "" {
      var n := |s| - 1;
      ByteLenIsEncoded(s[..n]);
      EncodeSnoc(s[..n], s[n]);
      assert s[..n] + [s[n]] == s;
    }
  }

  predicate IsControl(c: char)
  {
    c as int < 0x20 || 0x7f <= c as int < 0xa0
  }

  function Cleaned(text: string): (r: string)
    ensures |r| == |text| && forall i :: 0 <= i < |r| ==> !IsControl(r[i])
  {
    seq(|text|, i requires 0 <= i < |text| => if IsControl(text[i]) then ' ' else text[i])
  }

  predicate Boundary(s: string, end: nat)
  {
    exists k :: 0 <= k <= |s| && ByteLen(s[..k]) == end
  }

  lemma {:induction false} LongerPrefix(s: string, j: nat, k: nat)
    requires j < k <= |s|
    ensures ByteLen(s[..j]) < ByteLen(s[..k])
    decreases k
  {
    assert s[..k][..k - 1] == s[..k - 1];
    if j < k - 1 {
      LongerPrefix(s, j, k - 1);
    }
  }

  // How many characters lie before a byte position, if it is a boundary.
  method BoundaryAt(s: string, end: nat) returns (found: bool, k: nat)
    ensures found <==> Boundary(s, end)
    ensures k <= |s|
    ensures found ==> ByteLen(s[..k]) == end
  {
    k := 0;
    var bytes := 0;
    while k < |s| && bytes < end
      invariant 0 <= k <= |s| && bytes == ByteLen(s[..k])
      invariant forall j :: 0 <= j < k ==> ByteLen(s[..j]) < end
    {
      assert s[..k + 1][..k] == s[..k];
      bytes := bytes + Utf8Len(s[k]);
      k := k + 1;
    }
    found := bytes == end;
    if !found && Boundary(s, end) {
      var j :| 0 <= j <= |s| && ByteLen(s[..j]) == end;
      if j > k {
        LongerPrefix(s, k, j);
      }
    }
  }

  lemma LongestRun(text: string, k: nat)
    requires k <= |text| && ByteLen(Cleaned(text)[..k]) <= MAX_REASON_LEN
    requires k < |text| ==> ByteLen(Cleaned(text)[..k + 1]) > MAX_REASON_LEN
    ensures |Utf8.Encode(Cleaned(text)[..k])| <= 200
    ensures k < |text| ==> |Utf8.Encode(Cleaned(text)[..k])| + |Utf8.EncodeChar(Cleaned(text)[k])| > 200
  {
    ByteLenIsEncoded(Cleaned(text)[..k]);
    if k < |text| {
      assert Cleaned(text)[..k + 1] == Cleaned(text)[..k] + [Cleaned(text)[k]];
      ByteLenIsEncoded(Cleaned(text)[..k + 1]);
      EncodeSnoc(Cleaned(text)[..k], Cleaned(text)[k]);
    }
  }

  // A reason is cut to the longest run of whole characters that takes at most two hundred bytes, and every
  // control character in it becomes a space, so one event is one line.
  method Sanitize(text: string) returns (r: string)
    ensures |r| <= |text| && |Utf8.Encode(r)| <= 200
    ensures forall i :: 0 <= i < |r| ==> r[i] == if text[i] < ' ' || '\U{007f}' <= text[i] < '\U{00a0}' then ' ' else text[i]
    ensures |r| < |text| ==>
      (var next := if text[|r|] < ' ' || '\U{007f}' <= text[|r|] < '\U{00a0}' then ' ' else text[|r|];
       |Utf8.Encode(r)| + |Utf8.EncodeChar(next)| > 200)
  {
    var cleaned := Cleaned(text);
    assert cleaned[..|cleaned|] == cleaned;
    if ByteLen(cleaned) <= MAX_REASON_LEN {
      LongestRun(text, |text|);
      return cleaned;
    }
    var end := MAX_REASON_LEN;
    var found, k := BoundaryAt(cleaned, end);
    while end > 0 && !found
      invariant 0 <= end <= MAX_REASON_LEN
      invariant found <==> Boundary(cleaned, end)
      invariant 0 <= k <= |cleaned| && (found ==> ByteLen(cleaned[..k]) == end)
      invariant forall e :: end < e <= MAX_REASON_LEN ==> !Boundary(cleaned, e)
      decreases end
    {
      end := end - 1;
      found, k := BoundaryAt(cleaned, end);
    }
    assert Boundary(cleaned, 0) by {
      assert cleaned[..0] == "";
      assert ByteLen(cleaned[..0]) == 0;
    }
    forall j | k < j <= |cleaned| ensures ByteLen(cleaned[..j]) > MAX_REASON_LEN {
      LongerPrefix(cleaned, k, j);
      assert Boundary(cleaned, ByteLen(cleaned[..j]));
    }
    LongestRun(text, k);
    return cleaned[..k];
  }
}
