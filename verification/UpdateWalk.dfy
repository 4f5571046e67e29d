/** The two loops over the headers of an image, header by header. The position in the image is the whole state of the
    check; applying an image has the files as well. A length word of 2^31 or more makes the seeks step back, and then
    the loops can leave the order of the segments, or never end. */
module UpdateWalk {
  import opened Bytes
  import opened UpdateImage
  import Crc32

  // ----- checking -----

  datatype Position = Reading(off: nat) | Finished(good: bool)

  /** One round of the loop of `__update_check`. */
  function CheckStep(img: seq<bv8>, off: nat): Position {
    if off + HEADER_SIZE > |img| then Finished(true)
    else
      var s := SegmentAt(img, off);
      if s.Firmware() then Reading(SeekAt(img, off))
      else if s.Good() then Reading(NextAt(img, off))
      else Finished(false)
  }

  function CheckRun(img: seq<bv8>, p: Position, n: nat): Position
    decreases n
  {
    if n == 0 || p.Finished? then p else CheckRun(img, CheckStep(img, p.off), n - 1)
  }

  /** The headers read in the first n rounds. */
  function CheckTrace(img: seq<bv8>, p: Position, n: nat): seq<nat>
    decreases n
  {
    if n == 0 || p.Finished? || p.off + HEADER_SIZE > |img| then []
    else [p.off] + CheckTrace(img, CheckStep(img, p.off), n - 1)
  }

  /** The segments the check has to read: up to the first one whose check is wrong. */
  function ToRead(segs: seq<Segment>): (n: nat)
    ensures n <= |segs|
  {
    if segs == [] then 0 else if !segs[0].Good() then 1 else 1 + ToRead(segs[1..])
  }

  /** The loop ends, and has read the headers of the segments in order. */
  predicate CheckInOrder(img: seq<bv8>, off: nat, n: nat) {
    && CheckRun(img, Reading(off), n).Finished?
    && CheckTrace(img, Reading(off), n) == Offsets(img, off)[..ToRead(Segments(img, off))]
  }

  /** Up to the first segment whose check is wrong, no firmware seeks back. */
  predicate CheckStraight(segs: seq<Segment>) {
    segs == [] || !segs[0].Good() || (!(segs[0].Firmware() && segs[0].back) && CheckStraight(segs[1..]))
  }

  /** At the end of the image one more round finds no header. */
  lemma CheckPastEnd(img: seq<bv8>, off: nat, n: nat)
    requires off + HEADER_SIZE > |img| && n > 0
    ensures CheckRun(img, Reading(off), n) == Finished(true) && CheckTrace(img, Reading(off), n) == []
  {
  }

  /** A seek that does not lead back ends where the body ends, or both are behind the last header. */
  lemma SeekForward(img: seq<bv8>, off: nat)
    requires off + HEADER_SIZE <= |img| && !SegmentAt(img, off).back
    ensures SeekAt(img, off) == NextAt(img, off)
         || (SeekAt(img, off) + HEADER_SIZE > |img| && NextAt(img, off) + HEADER_SIZE > |img|)
  {
    hide PathAt, CrcAt, LengthWord;
  }

  /** And one that does leads to another place than the next header. */
  lemma SeekBack(img: seq<bv8>, off: nat)
    requires off + HEADER_SIZE <= |img| && SegmentAt(img, off).back
    ensures SeekAt(img, off) + HEADER_SIZE <= |img| && SeekAt(img, off) != NextAt(img, off)
  {
    hide PathAt, CrcAt, LengthWord;
  }

  lemma SegmentsFrom(img: seq<bv8>, off: nat)
    requires off + HEADER_SIZE <= |img|
    ensures var segs, o := Segments(img, off), Offsets(img, off);
            && segs != [] && segs[0] == SegmentAt(img, off) && segs[1..] == Segments(img, NextAt(img, off))
            && o == [off] + Offsets(img, NextAt(img, off))
  {
    hide SegmentAt, NextAt;
  }

  lemma GoodFirst(segs: seq<Segment>)
    requires segs != []
    ensures AllGood(segs) <==> segs[0].Good() && AllGood(segs[1..])
  {
    if segs[0].Good() && AllGood(segs[1..]) {
      forall i | 0 <= i < |segs|
        ensures segs[i].Good()
      {
        assert i > 0 ==> segs[i] == segs[1..][i - 1];
      }
    }
  }

  lemma CheckRound(img: seq<bv8>, off: nat, n: nat)
    requires off + HEADER_SIZE <= |img| && n > 0
    ensures CheckRun(img, Reading(off), n) == CheckRun(img, CheckStep(img, off), n - 1)
    ensures CheckTrace(img, Reading(off), n) == [off] + CheckTrace(img, CheckStep(img, off), n - 1)
  {
    hide CheckStep;
  }

  /** A segment that is right and not sought back over is passed, and the rest is as from its end. */
  lemma StraightRound(img: seq<bv8>, off: nat, n: nat)
    requires off + HEADER_SIZE <= |img| && n > 1 && SegmentAt(img, off).Good()
    requires !(SegmentAt(img, off).Firmware() && SegmentAt(img, off).back)
    ensures CheckRun(img, Reading(off), n) == CheckRun(img, Reading(NextAt(img, off)), n - 1)
    ensures CheckTrace(img, Reading(off), n) == [off] + CheckTrace(img, Reading(NextAt(img, off)), n - 1)
  {
    CheckRound(img, off, n);
    var next, sought := NextAt(img, off), SeekAt(img, off);
    if SegmentAt(img, off).Firmware() {
      SeekForward(img, off);
      assert CheckStep(img, off) == Reading(sought);
    } else {
      assert CheckStep(img, off) == Reading(next);
    }
    hide *;
    if next + HEADER_SIZE > |img| {
      CheckPastEnd(img, next, n - 1);
    }
    if sought + HEADER_SIZE > |img| {
      CheckPastEnd(img, sought, n - 1);
    }
  }

  lemma InOrderRound(img: seq<bv8>, off: nat, n: nat)
    requires off + HEADER_SIZE <= |img| && n > 1 && SegmentAt(img, off).Good()
    requires !(SegmentAt(img, off).Firmware() && SegmentAt(img, off).back)
    ensures CheckInOrder(img, off, n) <==> CheckInOrder(img, NextAt(img, off), n - 1)
  {
    StraightRound(img, off, n);
    SegmentsFrom(img, off);
    hide SegmentAt, NextAt, CheckRun, CheckTrace, Segments, Offsets;
    var segs, o := Segments(img, off), Offsets(img, NextAt(img, off));
    var m, t := ToRead(segs[1..]), CheckTrace(img, Reading(NextAt(img, off)), n - 1);
    assert ([off] + o)[..1 + m] == [off] + o[..m];
    assert ([off] + t)[1..] == t && ([off] + o[..m])[1..] == o[..m];
  }

  /** A segment whose check is wrong ends the loop. */
  lemma FirstBad(img: seq<bv8>, off: nat, n: nat)
    requires off + HEADER_SIZE <= |img| && n > 0 && !SegmentAt(img, off).Good()
    ensures CheckInOrder(img, off, n) && CheckRun(img, Reading(off), n) == Finished(false)
  {
    SegmentsFrom(img, off);
    CheckRound(img, off, n);
    assert CheckStep(img, off) == Finished(false);
    hide SegmentAt, NextAt, Segments, Offsets, CheckStep;
    assert CheckTrace(img, Finished(false), n - 1) == [];
    assert Offsets(img, off)[..1] == [off];
  }

  /** Without a step back the loop reads the segments in order and finds what they are. */
  lemma {:induction false} StraightCheck(img: seq<bv8>, off: nat, n: nat)
    requires CheckStraight(Segments(img, off)) && n > |Segments(img, off)|
    ensures CheckInOrder(img, off, n) && CheckRun(img, Reading(off), n) == Finished(AllGood(Segments(img, off)))
    decreases |img| - off
  {
    hide SegmentAt, CheckRun, CheckTrace, CheckStep;
    if off + HEADER_SIZE > |img| {
      CheckPastEnd(img, off, n);
    } else {
      SegmentsFrom(img, off);
      hide Segments, Offsets, AllGood, CheckInOrder;
      GoodFirst(Segments(img, off));
      if SegmentAt(img, off).Good() {
        StraightRound(img, off, n);
        InOrderRound(img, off, n);
        StraightCheck(img, NextAt(img, off), n - 1);
      } else {
        FirstBad(img, off, n);
      }
    }
  }

  lemma OffsetsFirst(img: seq<bv8>, off: nat)
    ensures Offsets(img, off) == [] || Offsets(img, off)[0] == off
  {
    hide SegmentAt, NextAt;
  }

  lemma OtherSecond(first: nat, second: nat, t: seq<nat>, o: seq<nat>, m: nat)
    requires m <= |[first] + o| && (o == [] || o[0] != second)
    ensures [first] + ([second] + t) != ([first] + o)[..m]
  {
    var a, b := [first] + ([second] + t), ([first] + o)[..m];
    assert |a| > 1 && a[1] == second;
    assert |b| > 1 ==> b[1] == o[0];
  }

  lemma StepsBack(img: seq<bv8>, off: nat, n: nat)
    requires off + HEADER_SIZE <= |img| && n > 1
    requires SegmentAt(img, off).Firmware() && SegmentAt(img, off).back
    ensures !CheckInOrder(img, off, n)
  {
    SegmentsFrom(img, off);
    SeekBack(img, off);
    CheckRound(img, off, n);
    var next, back := NextAt(img, off), SeekAt(img, off);
    CheckRound(img, back, n - 1);
    assert CheckStep(img, off) == Reading(back);
    OffsetsFirst(img, next);
    hide SegmentAt, NextAt, SeekAt, Segments, Offsets, CheckRun, CheckTrace, CheckStep, ToRead;
    var t, m := CheckTrace(img, CheckStep(img, back), n - 2), ToRead(Segments(img, off));
    OtherSecond(off, back, t, Offsets(img, next), m);
  }

  /** With one it never ends with the segments read in order. */
  lemma {:induction false} CrookedCheck(img: seq<bv8>, off: nat, n: nat)
    requires !CheckStraight(Segments(img, off))
    ensures !CheckInOrder(img, off, n)
    decreases |img| - off
  {
    hide SegmentAt, CheckTrace;
    if n <= 1 {
      assert CheckRun(img, Reading(off), n).Finished? ==> n == 1 && CheckStep(img, off).Finished?;
    }
    if off + HEADER_SIZE <= |img| {
      SegmentsFrom(img, off);
    }
    hide Segments, Offsets, CheckRun;
    if n > 1 {
      hide CheckStep, CheckInOrder;
      if SegmentAt(img, off).Firmware() && SegmentAt(img, off).back {
        StepsBack(img, off, n);
      } else {
        InOrderRound(img, off, n);
        CrookedCheck(img, NextAt(img, off), n - 1);
      }
    }
  }

  lemma OtherWhole(first: nat, second: nat, t: seq<nat>, o: seq<nat>)
    requires o == [] || o[0] != second
    ensures [first] + ([second] + t) != [first] + o
  {
    OtherSecond(first, second, t, o, |[first] + o|);
    assert ([first] + o)[..|[first] + o|] == [first] + o;
  }

  /** The check of an image ends, with its segments read in order, if and only if no firmware segment it gets to seeks
      back. */
  lemma CheckInOrderExactly(img: seq<bv8>)
    ensures (exists n: nat :: CheckInOrder(img, MAGIC_SIZE, n)) <==> CheckStraight(Segments(img, MAGIC_SIZE))
  {
    hide CheckInOrder, CheckStraight, Segments;
    if CheckStraight(Segments(img, MAGIC_SIZE)) {
      StraightCheck(img, MAGIC_SIZE, |Segments(img, MAGIC_SIZE)| + 1);
    } else {
      forall n: nat
        ensures !CheckInOrder(img, MAGIC_SIZE, n)
      {
        CrookedCheck(img, MAGIC_SIZE, n);
      }
    }
  }

  lemma {:induction false} CheckRunSplit(img: seq<bv8>, p: Position, m: nat, n: nat)
    ensures CheckRun(img, p, m + n) == CheckRun(img, CheckRun(img, p, m), n)
    decreases m
  {
    hide CheckStep;
    if m > 0 && p.Reading? {
      CheckRunSplit(img, CheckStep(img, p.off), m - 1, n);
    }
  }

  /** A loop that comes back to a position never ends. */
  lemma {:induction false} CheckPeriodic(img: seq<bv8>, p: Position, d: nat, n: nat)
    requires d > 0 && p.Reading? && CheckRun(img, p, d) == p
    ensures CheckRun(img, p, n).Reading?
  {
    hide CheckStep;
    if n < d {
      CheckRunSplit(img, p, n, d - n);
    } else {
      CheckRunSplit(img, p, d, n - d);
      CheckPeriodic(img, p, d, n - d);
    }
  }

  /** More numbers below k than k: one of them occurs twice. */
  lemma {:induction false} Pigeonhole(s: seq<nat>, k: nat)
    requires |s| > k && forall i :: 0 <= i < |s| ==> s[i] < k
    ensures exists i, j :: 0 <= i < j < |s| && s[i] == s[j]
    decreases k
  {
    var last := |s| - 1;
    if i :| 0 <= i < last && s[i] == s[last] {
    } else {
      // the last value is free in the others, so k - 1 can take its place
      var t := seq(last, i requires 0 <= i < last => if s[i] == k - 1 then s[last] else s[i]);
      Pigeonhole(t, k - 1);
      var i, j :| 0 <= i < j < |t| && t[i] == t[j];
      assert s[i] != s[last] && s[j] != s[last];
    }
  }

  lemma StillReading(img: seq<bv8>, p: Position, i: nat, k: nat)
    requires i < k && CheckRun(img, p, k).Reading?
    ensures CheckRun(img, p, i).Reading? && CheckRun(img, p, i).off < |img|
  {
    CheckRunSplit(img, p, i, k - i);
    hide SegmentAt, SeekAt, NextAt;
  }

  /** The check of an image ends at all if and only if it has ended after one round more than the image has
      bytes. */
  lemma CheckEndsExactly(img: seq<bv8>, off: nat)
    ensures (exists n: nat :: CheckRun(img, Reading(off), n).Finished?)
       <==> CheckRun(img, Reading(off), |img| + 1).Finished?
  {
    hide CheckStep;
    var k, p := |img| + 1, Reading(off);
    if CheckRun(img, p, k).Reading? {
      forall i | 0 <= i < k
        ensures CheckRun(img, p, i).Reading? && CheckRun(img, p, i).off < |img|
      {
        StillReading(img, p, i, k);
      }
      var seen := seq(k, i requires 0 <= i < k => CheckRun(img, p, i).off);
      Pigeonhole(seen, |img|);
      var i, j :| 0 <= i < j < |seen| && seen[i] == seen[j];
      var q := CheckRun(img, p, i);
      CheckRunSplit(img, p, i, j - i);
      forall n: nat
        ensures CheckRun(img, p, n).Reading?
      {
        CheckPeriodic(img, q, j - i, n);
        CheckRunSplit(img, p, i, n);
        CheckRunSplit(img, p, n, i);
      }
    }
  }

  // ----- applying -----

  datatype Work = Working(files: Files, off: nat) | Done(files: Files)

  /** One round of the loop of `__update_do` on the image at `src`. A segment written to the image itself truncates it
      first, and then there is nothing left to read. */
  function DoStep(src: Path, files: Files, off: nat): (w: Work)
    requires src in files
    ensures src in w.files
  {
    var img := files[src];
    if off + HEADER_SIZE > |img| then Done(files)
    else
      var s := SegmentAt(img, off);
      if Skips(files, s) then Working(files, SeekAt(img, off))
      else if s.path == src then Working(files[src := []], off + HEADER_SIZE)
      else Working(files[s.path := s.body], NextAt(img, off))
  }

  function DoRun(src: Path, w: Work, n: nat): (r: Work)
    requires src in w.files
    ensures src in r.files
    decreases n
  {
    if n == 0 || w.Done? then w else DoRun(src, DoStep(src, w.files, w.off), n - 1)
  }

  /** The headers read in the first n rounds. */
  function DoTrace(src: Path, w: Work, n: nat): seq<nat>
    requires src in w.files
    decreases n
  {
    if n == 0 || w.Done? || w.off + HEADER_SIZE > |w.files[src]| then []
    else [w.off] + DoTrace(src, DoStep(src, w.files, w.off), n - 1)
  }

  /** The loop ends, and has read the headers of all segments in order. */
  predicate DoInOrder(src: Path, files: Files, off: nat, n: nat)
    requires src in files
  {
    && DoRun(src, Working(files, off), n).Done?
    && DoTrace(src, Working(files, off), n) == Offsets(files[src], off)
  }

  /** No segment that is skipped when its turn comes seeks back, and none but the last is written to the image. */
  predicate DoStraight(src: Path, files: Files, segs: seq<Segment>)
    decreases |segs|
  {
    segs == [] ||
      ((if Skips(files, segs[0]) then !segs[0].back else segs[0].path != src || |segs| == 1)
       && DoStraight(src, Apply(files, segs[0]), segs[1..]))
  }

  lemma DoPastEnd(src: Path, files: Files, off: nat, n: nat)
    requires src in files && off + HEADER_SIZE > |files[src]| && n > 0
    ensures DoRun(src, Working(files, off), n) == Done(files) && DoTrace(src, Working(files, off), n) == []
  {
  }

  lemma DoRound(src: Path, files: Files, off: nat, n: nat)
    requires src in files && off + HEADER_SIZE <= |files[src]| && n > 0
    ensures DoRun(src, Working(files, off), n) == DoRun(src, DoStep(src, files, off), n - 1)
    ensures DoTrace(src, Working(files, off), n) == [off] + DoTrace(src, DoStep(src, files, off), n - 1)
  {
    hide DoStep;
  }

  /** A round that passes the segment is its application. */
  lemma StraightDoRound(src: Path, files: Files, off: nat, n: nat)
    requires src in files && off + HEADER_SIZE <= |files[src]| && n > 1
    requires var s := SegmentAt(files[src], off); if Skips(files, s) then !s.back else s.path != src
    ensures var w := Working(Apply(files, SegmentAt(files[src], off)), NextAt(files[src], off));
            && src in w.files && w.files[src] == files[src]
            && DoRun(src, Working(files, off), n) == DoRun(src, w, n - 1)
            && DoTrace(src, Working(files, off), n) == [off] + DoTrace(src, w, n - 1)
  {
    DoRound(src, files, off, n);
    var img, s := files[src], SegmentAt(files[src], off);
    var next, sought := NextAt(img, off), SeekAt(img, off);
    if Skips(files, s) {
      SeekForward(img, off);
      assert DoStep(src, files, off) == Working(files, sought) && Apply(files, s) == files;
    } else {
      assert DoStep(src, files, off) == Working(Apply(files, s), next);
    }
    hide *;
    if Skips(files, s) {
      if next + HEADER_SIZE > |img| {
        DoPastEnd(src, files, next, n - 1);
      }
      if sought + HEADER_SIZE > |img| {
        DoPastEnd(src, files, sought, n - 1);
      }
    }
  }

  /** A segment written to the image is the last one read. */
  lemma SelfRound(src: Path, files: Files, off: nat, n: nat)
    requires src in files && off + HEADER_SIZE <= |files[src]| && n > 1
    requires var s := SegmentAt(files[src], off); !Skips(files, s) && s.path == src
    ensures DoRun(src, Working(files, off), n) == Done(files[src := []])
    ensures DoTrace(src, Working(files, off), n) == [off]
  {
    DoRound(src, files, off, n);
    DoPastEnd(src, files[src := []], off + HEADER_SIZE, n - 1);
    hide DoRun, DoTrace, SegmentAt, Skips;
  }

  lemma NoMore(files: Files, s: Segment, segs: seq<Segment>, src: Path)
    requires segs == [] && !Skips(files, s) && s.path == src
    ensures files[src := []] - {src} == ApplyAll(Apply(files, s), segs) - {src}
  {
    hide Skips;
    assert files[src := []] - {src} == files[src := s.body] - {src};
  }

  /** Without a step back the files other than the image become those of the segments applied in order. */
  lemma {:induction false} StraightDo(src: Path, files: Files, off: nat, n: nat)
    requires src in files && n > |Segments(files[src], off)| && DoStraight(src, files, Segments(files[src], off))
    ensures DoInOrder(src, files, off, n)
    ensures DoRun(src, Working(files, off), n).files - {src} == ApplyAll(files, Segments(files[src], off)) - {src}
    decreases |files[src]| - off
  {
    hide SegmentAt, DoStep, DoRun, DoTrace, Skips;
    var img := files[src];
    if off + HEADER_SIZE > |img| {
      DoPastEnd(src, files, off, n);
    } else {
      SegmentsFrom(img, off);
      var s, segs := SegmentAt(img, off), Segments(img, off);
      assert segs == [s] + segs[1..];
      ApplyFront(files, s, segs[1..]);
      hide Segments, Offsets, ApplyAll;
      if !Skips(files, s) && s.path == src {
        SelfRound(src, files, off, n);
        NoMore(files, s, segs[1..], src);
      } else {
        StraightDoRound(src, files, off, n);
        StraightDo(src, Apply(files, s), NextAt(img, off), n - 1);
        hide Apply;
      }
    }
  }

  lemma DoStepsBack(src: Path, files: Files, off: nat, n: nat)
    requires src in files && off + HEADER_SIZE <= |files[src]| && n > 1
    requires var s := SegmentAt(files[src], off); Skips(files, s) && s.back
    ensures !DoInOrder(src, files, off, n)
  {
    var img := files[src];
    SegmentsFrom(img, off);
    SeekBack(img, off);
    DoRound(src, files, off, n);
    var next, back := NextAt(img, off), SeekAt(img, off);
    DoRound(src, files, back, n - 1);
    assert DoStep(src, files, off) == Working(files, back);
    OffsetsFirst(img, next);
    hide SegmentAt, NextAt, SeekAt, Segments, Offsets, DoRun, DoTrace, DoStep;
    OtherWhole(off, back, DoTrace(src, DoStep(src, files, back), n - 2), Offsets(img, next));
  }

  /** Otherwise it never ends with the segments read in order. */
  lemma {:induction false} CrookedDo(src: Path, files: Files, off: nat, n: nat)
    requires src in files && !DoStraight(src, files, Segments(files[src], off))
    ensures !DoInOrder(src, files, off, n)
    decreases |files[src]| - off
  {
    hide SegmentAt, DoTrace, Skips, Apply;
    var img := files[src];
    if n <= 1 {
      assert DoRun(src, Working(files, off), n).Done? ==> n == 1 && DoStep(src, files, off).Done?;
    }
    if off + HEADER_SIZE <= |img| {
      SegmentsFrom(img, off);
    }
    hide Segments, Offsets, DoRun;
    if n > 1 {
      hide DoStep;
      var s := SegmentAt(img, off);
      if Skips(files, s) && s.back {
        hide DoInOrder;
        DoStepsBack(src, files, off, n);
      } else if !Skips(files, s) && s.path == src {
        SelfRound(src, files, off, n);
      } else {
        StraightDoRound(src, files, off, n);
        CrookedDo(src, Apply(files, s), NextAt(img, off), n - 1);
        var t := DoTrace(src, Working(Apply(files, s), NextAt(img, off)), n - 1);
        assert ([off] + t)[1..] == t && ([off] + Offsets(img, NextAt(img, off)))[1..] == Offsets(img, NextAt(img, off));
      }
    }
  }

  /** Applying an image ends, with its segments read in order, if and only if no skipped segment seeks back and none but
      the last is written to the image itself. */
  lemma DoInOrderExactly(src: Path, files: Files)
    requires src in files
    ensures (exists n: nat :: DoInOrder(src, files, MAGIC_SIZE, n))
       <==> DoStraight(src, files, Segments(files[src], MAGIC_SIZE))
  {
    hide DoInOrder, DoStraight, Segments;
    if DoStraight(src, files, Segments(files[src], MAGIC_SIZE)) {
      StraightDo(src, files, MAGIC_SIZE, |Segments(files[src], MAGIC_SIZE)| + 1);
    } else {
      forall n: nat
        ensures !DoInOrder(src, files, MAGIC_SIZE, n)
      {
        CrookedDo(src, files, MAGIC_SIZE, n);
      }
    }
  }

  predicate NoneBack(segs: seq<Segment>) {
    segs == [] || (!segs[0].back && NoneBack(segs[1..]))
  }

  lemma {:induction false} SkipsStraight(src: Path, files: Files, segs: seq<Segment>)
    requires Applied(files, segs)
    ensures DoStraight(src, files, segs) <==> NoneBack(segs)
  {
    if segs != [] {
      assert Skips(files, segs[0]);
      forall i | 0 <= i < |segs[1..]|
        ensures Skips(files, segs[1..][i])
      {
        assert segs[1..][i] == segs[i + 1];
      }
      hide Skips;
      SkipsStraight(src, files, segs[1..]);
    }
  }

  /** An image whose segments are all applied is applied again, every segment by the skip branch, with the files left as
      they are, if and only if no segment at all seeks back. */
  lemma ApplyAgainExactly(src: Path, files: Files)
    requires src in files && Applied(files, Segments(files[src], MAGIC_SIZE))
    ensures var segs := Segments(files[src], MAGIC_SIZE);
            && ((exists n: nat :: DoInOrder(src, files, MAGIC_SIZE, n)) <==> NoneBack(segs))
            && (NoneBack(segs) ==> forall n :: n > |segs| ==>
                  DoRun(src, Working(files, MAGIC_SIZE), n).files - {src} == files - {src})
  {
    hide DoInOrder, NoneBack, Segments, DoRun, DoStraight, Applied;
    var segs := Segments(files[src], MAGIC_SIZE);
    DoInOrderExactly(src, files);
    SkipsStraight(src, files, segs);
    ApplyAgain(files, segs);
    if NoneBack(segs) {
      forall n | n > |segs|
        ensures DoRun(src, Working(files, MAGIC_SIZE), n).files - {src} == files - {src}
      {
        StraightDo(src, files, MAGIC_SIZE, n);
      }
    }
  }

  // ----- images on which the loops never end -----

  /** Back over one header. */
  const ONE_BACK: Word := 0xFFFF_FE78

  /** A firmware segment that seeks back over its own header is read for ever. */
  lemma {:induction false} CheckForEver(img: seq<bv8>, off: nat, n: nat)
    requires off + HEADER_SIZE <= |img| && SegmentAt(img, off).Firmware() && LengthWord(img, off) == ONE_BACK
    ensures CheckRun(img, Reading(off), n) == Reading(off)
  {
    if n > 0 {
      assert CheckStep(img, off) == Reading(off);
      CheckForEver(img, off, n - 1);
    }
  }

  /** So is any segment that is skipped. */
  lemma {:induction false} DoForEver(src: Path, files: Files, off: nat, n: nat)
    requires src in files && off + HEADER_SIZE <= |files[src]|
    requires Skips(files, SegmentAt(files[src], off)) && LengthWord(files[src], off) == ONE_BACK
    ensures DoRun(src, Working(files, off), n) == Working(files, off)
  {
    if n > 0 {
      assert DoStep(src, files, off) == Working(files, off);
      DoForEver(src, files, off, n - 1);
    }
  }

  /** An image of one segment with an empty body whose length word leads back to its header. */
  function LoopImage(path: Path): seq<bv8>
    requires |path| < 384
  {
    LeBytes(0x526F2678) + LeBytes(0x1B5C4DEE) + LeBytes(0x67FAB5CD) + path + Zeros(384 - |path|)
    + LeBytes(0xFFFF_FE78) + LeBytes(0) + [0]
  }

  lemma WordIs(img: seq<bv8>, off: nat, w: bv32)
    requires off + 4 <= |img| && img[off..off + 4] == LeBytes(w)
    ensures WordAt(img, off) == w
  {
    WordRoundTrip(w);
    hide LeBytes, LeWord;
    var b := LeBytes(w);
    assert b[0] == img[off] && b[1] == img[off + 1] && b[2] == img[off + 2] && b[3] == img[off + 3];
  }

  lemma LoopImageWords(path: Path)
    requires |path| < 384
    ensures var img := LoopImage(path);
            && |img| == 405 && Magic(img) && LengthWord(img, MAGIC_SIZE) == ONE_BACK && CrcAt(img, MAGIC_SIZE) == 0
  {
    hide LeBytes, WordAt;
    var img := LoopImage(path);
    WordIs(img, 0, 0x526F2678);
    WordIs(img, 4, 0x1B5C4DEE);
    WordIs(img, 8, 0x67FAB5CD);
    WordIs(img, 396, 0xFFFF_FE78);
    WordIs(img, 400, 0);
  }

  lemma NulFirst(s: seq<bv8>)
    requires s != [] && s[0] == 0
    ensures CString(s) == []
  {
  }

  lemma LoopImagePath(path: Path)
    requires |path| < 384 && 0 !in path
    ensures PathAt(LoopImage(path), MAGIC_SIZE) == path
  {
    hide LeBytes, CString;
    var tail := Zeros(384 - |path|) + LeBytes(0xFFFF_FE78) + LeBytes(0);
    assert LoopImage(path)[12..404] == path + tail;
    CStringConcat(path, tail);
    NulFirst(tail);
  }

  /** The check of such an image with a firmware segment never ends. */
  lemma FirmwareLoops(n: nat)
    ensures CheckRun(LoopImage(FIRMWARE_PATH), Reading(MAGIC_SIZE), n) == Reading(MAGIC_SIZE)
  {
    LoopImageWords(FIRMWARE_PATH);
    LoopImagePath(FIRMWARE_PATH);
    hide LoopImage, LengthWord, PathAt, CheckRun, CrcAt;
    CheckForEver(LoopImage(FIRMWARE_PATH), MAGIC_SIZE, n);
  }

  lemma EmptyCheck()
    ensures Crc32.Crc(0, []) == 0
  {
  }

  /** With the path of a missing file it passes the check, and is applied for ever. */
  lemma MissingFileLoops(src: Path, path: Path, files: Files, n: nat)
    requires |path| < 384 && 0 !in path && path != FIRMWARE_PATH && path !in files
    requires src in files && files[src] == LoopImage(path)
    ensures CheckRun(files[src], Reading(MAGIC_SIZE), 2) == Finished(true)
    ensures DoRun(src, Working(files, MAGIC_SIZE), n) == Working(files, MAGIC_SIZE)
  {
    LoopImageWords(path);
    LoopImagePath(path);
    var img := LoopImage(path);
    Crc32.CrcConcat(0, [], []);
    assert NextAt(img, MAGIC_SIZE) == 404 && SegmentAt(img, MAGIC_SIZE).body == [];
    hide LoopImage, LengthWord, PathAt, CrcAt, CheckRun, DoRun;
    EmptyCheck();
    CheckRound(img, MAGIC_SIZE, 2);
    assert CheckStep(img, MAGIC_SIZE) == Reading(404);
    CheckPastEnd(img, 404, 1);
    DoForEver(src, files, MAGIC_SIZE, n);
  }
}
