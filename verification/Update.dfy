/** The loops over file descriptors. The two loops over headers run for `rounds` rounds, any number of them, so that a
    run that never ends can be spoken of. */
module Update {
  import opened Bytes
  import opened UpdateImage
  import opened UpdateWalk
  import Crc32

  /** What a function has returned after a number of rounds of its header loop. */
  datatype Outcome = Busy | Returned(ok: bool)

  /** A successful `read`: some of what is asked for, and nothing only at the end of the data. */
  method Read(data: seq<bv8>, off: nat, n: nat) returns (len: nat)
    ensures len <= n && (off < |data| ==> off + len <= |data|)
    ensures len == 0 <==> n == 0 || off >= |data|
  {
    len := if off >= |data| then 0 else Min(n, |data| - off);
  }

  /** The segments the two functions look at: none when the magic number is wrong. */
  function SegmentsOf(files: Files, path: Path): seq<Segment> {
    if path in files && |files[path]| > MAGIC_SIZE + HEADER_SIZE && Magic(files[path])
    then Segments(files[path], MAGIC_SIZE) else []
  }

  /** What `__update_check` accepts. A wrong magic number is accepted too. */
  predicate Acceptable(files: Files, path: Path) {
    path in files && |files[path]| > MAGIC_SIZE + HEADER_SIZE && AllGood(SegmentsOf(files, path))
  }

  /** Neither loop steps back. */
  predicate Straight(files: Files, path: Path) {
    CheckStraight(SegmentsOf(files, path)) && DoStraight(path, files, SegmentsOf(files, path))
  }

  /** `__update_check` after a number of rounds. */
  function Checked(files: Files, path: Path, rounds: nat): Outcome {
    if path !in files || |files[path]| <= MAGIC_SIZE + HEADER_SIZE then Returned(false)
    else if !Magic(files[path]) then Returned(true)
    else match CheckRun(files[path], Reading(MAGIC_SIZE), rounds)
      case Finished(good) => Returned(good)
      case Reading(_) => Busy
  }

  /** `__update_do` after a number of rounds. */
  function Performed(files: Files, path: Path, rounds: nat): (Outcome, Files) {
    if path !in files || |files[path]| <= MAGIC_SIZE + HEADER_SIZE then (Returned(false), files - {path})
    else if !Magic(files[path]) then (Returned(true), files - {path})
    else match DoRun(path, Working(files, MAGIC_SIZE), rounds)
      case Done(now) => (Returned(true), now - {path})
      case Working(now, _) => (Busy, now)
  }

  lemma CheckRunOn(img: seq<bv8>, off: nat, n: nat)
    ensures CheckRun(img, Reading(off), n) ==
      if n == 0 then Reading(off)
      else if CheckStep(img, off).Finished? then CheckStep(img, off) else CheckRun(img, CheckStep(img, off), n - 1)
  {
    hide CheckStep;
  }

  lemma DoRunOn(src: Path, files: Files, off: nat, n: nat)
    requires src in files
    ensures DoRun(src, Working(files, off), n) ==
      if n == 0 then Working(files, off)
      else if DoStep(src, files, off).Done? then DoStep(src, files, off)
      else DoRun(src, DoStep(src, files, off), n - 1)
  {
    hide DoStep;
  }

  lemma NoSegments()
    ensures AllGood([])
  {
  }

  lemma DoStepEnds(src: Path, files: Files, off: nat)
    requires src in files && off + HEADER_SIZE > |files[src]|
    ensures DoStep(src, files, off) == Done(files)
  {
  }

  lemma DoSkips(src: Path, files: Files, off: nat)
    requires src in files && off + HEADER_SIZE <= |files[src]|
    requires || PathAt(files[src], off) == FIRMWARE_PATH
             || FileCheck(files, PathAt(files[src], off)) == CrcAt(files[src], off)
    ensures DoStep(src, files, off) == Working(files, Seek(off + HEADER_SIZE, LengthWord(files[src], off)))
  {
    hide FileCheck, PathAt, CrcAt, LengthWord, Seek, NextAt, FIRMWARE_PATH;
  }

  lemma DoWrites(src: Path, files: Files, off: nat)
    requires src in files && off + HEADER_SIZE <= |files[src]|
    requires PathAt(files[src], off) != FIRMWARE_PATH
    requires FileCheck(files, PathAt(files[src], off)) != CrcAt(files[src], off)
    ensures var img, path, next := files[src], PathAt(files[src], off), NextAt(files[src], off);
            && (path == src ==> DoStep(src, files, off) == Working(files[src := []], off + HEADER_SIZE))
            && (path != src ==>
                  DoStep(src, files, off) == Working(files[path := img[off + HEADER_SIZE..next]], next))
  {
    hide FileCheck, PathAt, CrcAt, LengthWord, Seek, NextAt, FIRMWARE_PATH;
  }

  /** With enough rounds the check returns whether the image is acceptable, if no firmware segment seeks back. */
  lemma CheckedExactly(files: Files, path: Path, rounds: nat)
    requires CheckStraight(SegmentsOf(files, path)) && rounds > |SegmentsOf(files, path)|
    ensures Checked(files, path, rounds) == Returned(Acceptable(files, path))
  {
    hide CheckStraight, CheckRun, Magic, Segments, AllGood;
    if path in files && |files[path]| > MAGIC_SIZE + HEADER_SIZE {
      if Magic(files[path]) {
        StraightCheck(files[path], MAGIC_SIZE, rounds);
      } else {
        NoSegments();
      }
    }
  }

  /** And applying it gives the segments applied in order, if no skipped segment seeks back. */
  lemma PerformedExactly(files: Files, path: Path, rounds: nat)
    requires path in files && |files[path]| > MAGIC_SIZE + HEADER_SIZE
    requires DoStraight(path, files, SegmentsOf(files, path)) && rounds > |SegmentsOf(files, path)|
    ensures Performed(files, path, rounds) == (Returned(true), ApplyAll(files, SegmentsOf(files, path)) - {path})
  {
    hide DoStraight, DoRun, Magic, Segments, DoTrace;
    if Magic(files[path]) {
      StraightDo(path, files, MAGIC_SIZE, rounds);
    }
  }

  lemma AppliedAfter(files: Files, path: Path)
    requires Acceptable(files, path)
    ensures var segs := SegmentsOf(files, path);
            !Targets(segs, path) ==> (Applied(ApplyAll(files, segs) - {path}, segs) <==> Consistent(segs))
  {
    hide SegmentsOf, Targets, Applied, ApplyAll, Consistent, AllGood;
    var segs := SegmentsOf(files, path);
    AppliedExactly(files, segs);
    if !Targets(segs, path) {
      AppliedWithout(ApplyAll(files, segs), segs, path);
    }
  }

  class Disk {
    var files: Files

    constructor (files: Files)
      ensures this.files == files
    {
      this.files := files;
    }

    /** `__file_crc`: the check accumulated over whatever chunks the reads return. */
    method FileCrc(path: Path) returns (crc: bv32)
      ensures crc == FileCheck(files, path)
    {
      hide Crc32.Crc;
      if path !in files {
        return 0;
      }
      crc := 0;
      var p := 0;
      var data := files[path];
      Crc32.CrcConcat(0, [], []);
      while true
        invariant p <= |data| && crc == Crc32.Crc(0, data[..p])
        decreases |data| - p
      {
        var len := Read(data, p, 4096);
        if len == 0 {
          break;
        }
        Crc32.CrcConcat(0, data[..p], data[p..p + len]);
        assert data[..p + len] == data[..p] + data[p..p + len];
        crc := Crc32.RtCrc32(crc, data[p..p + len]);
        p := p + len;
      }
      assert data[..p] == data;
    }

    /** The body loop of `__update_check`: the check of the next `length` bytes, or of what is left. */
    static method BodyCrc(img: seq<bv8>, off: nat, length: nat) returns (crc: bv32, next: nat)
      requires off <= |img|
      ensures next == Min(off + length, |img|) && crc == Crc32.Crc(0, img[off..next])
    {
      hide Crc32.Crc;
      var remain := length;
      crc, next := 0, off;
      Crc32.CrcConcat(0, [], []);
      assert img[off..off] == [];
      while remain > 0
        invariant off <= next <= |img| && remain == length - (next - off)
        invariant crc == Crc32.Crc(0, img[off..next])
      {
        var len := Read(img, next, Min(remain, 4096));
        if len == 0 {
          break;
        }
        Crc32.CrcConcat(0, img[off..next], img[next..next + len]);
        assert img[off..next + len] == img[off..next] + img[next..next + len];
        crc := Crc32.RtCrc32(crc, img[next..next + len]);
        next, remain := next + len, remain - len;
      }
    }

    /** The header loop of `__update_check`. */
    static method CheckSegments(img: seq<bv8>, rounds: nat) returns (p: Position)
      ensures p == CheckRun(img, Reading(MAGIC_SIZE), rounds)
    {
      hide CheckRun, Crc32.Crc, CString, LeWord, FIRMWARE_PATH;
      var off: nat, n: nat := MAGIC_SIZE, rounds;
      while n > 0
        invariant CheckRun(img, Reading(MAGIC_SIZE), rounds) == CheckRun(img, Reading(off), n)
      {
        CheckRunOn(img, off, n);
        if off + HEADER_SIZE > |img| {
          return Finished(true);
        }
        var start := off + HEADER_SIZE;
        if PathAt(img, off) != FIRMWARE_PATH {
          var crc, stop := BodyCrc(img, start, LengthAt(img, off));
          if crc != CrcAt(img, off) {
            return Finished(false);
          }
          off := stop;
        } else {
          off := Seek(start, LengthWord(img, off));
        }
        n := n - 1;
      }
      CheckRunOn(img, off, 0);
      return Reading(off);
    }

    /** `__update_check`, and the removal of an image that fails it. */
    method UpdateCheck(path: Path, rounds: nat) returns (r: Outcome)
      modifies this
      ensures r == Checked(old(files), path, rounds)
      ensures files == if r == Returned(false) then old(files) - {path} else old(files)
    {
      hide Magic, CheckRun;
      r := Returned(false);
      if path in files {
        var img := files[path];
        if |img| > MAGIC_SIZE + HEADER_SIZE {
          r := Returned(true);
          if Magic(img) {
            var p := CheckSegments(img, rounds);
            r := if p.Finished? then Returned(p.good) else Busy;
          }
        }
      }
      if r == Returned(false) {
        files := files - {path};
      }
    }

    /** The copy loop of `__update_do`: the file is truncated, then grows by what each read of the image returns. The
        image can be that file. */
    method WriteBody(src: Path, off: nat, length: nat, path: Path) returns (next: nat)
      requires src in files && off <= |files[src]|
      modifies this
      ensures path == src ==> next == off && files == old(files)[src := []]
      ensures path != src ==> next == Min(off + length, |old(files)[src]|)
      ensures path != src ==> files == old(files)[path := old(files)[src][off..next]]
    {
      files := files[path := []];
      var remain := length;
      next := off;
      ghost var img := files[src];
      assert path != src ==> img[off..off] == [];
      while remain > 0
        invariant path == src ==> next == off && files == old(files)[path := []]
        invariant path != src ==> off <= next <= |img| && remain == length - (next - off)
        invariant path != src ==> files == old(files)[path := img[off..next]]
      {
        var len := Read(files[src], next, Min(remain, 512));
        if len == 0 {
          break;
        }
        assert img[off..next + len] == img[off..next] + img[next..next + len];
        files := files[path := files[path] + files[src][next..next + len]];
        next, remain := next + len, remain - len;
      }
    }

    /** One segment of `__update_do`: skipped by a seek, or written. */
    method DoSegment(src: Path, off: nat) returns (next: nat)
      requires src in files && off + HEADER_SIZE <= |files[src]|
      modifies this
      ensures DoStep(src, old(files), off) == Working(files, next)
    {
      hide DoStep, FileCheck, PathAt, CrcAt, LengthWord, Seek, FIRMWARE_PATH;
      var img := files[src];
      var start, path := off + HEADER_SIZE, PathAt(img, off);
      if path != FIRMWARE_PATH {
        var crc := FileCrc(path);
        if crc == CrcAt(img, off) {
          DoSkips(src, files, off);
          next := Seek(start, LengthWord(img, off));
        } else {
          DoWrites(src, files, off);
          next := WriteBody(src, start, LengthAt(img, off), path);
        }
      } else {
        DoSkips(src, files, off);
        next := Seek(start, LengthWord(img, off));
      }
    }

    /** The header loop of `__update_do`. */
    method DoSegments(src: Path, rounds: nat) returns (more: bool)
      requires src in files
      modifies this
      ensures var w := DoRun(src, Working(old(files), MAGIC_SIZE), rounds); more == w.Working? && files == w.files
    {
      hide DoRun, DoStep;
      var off: nat, n: nat := MAGIC_SIZE, rounds;
      while n > 0
        invariant src in files
        invariant DoRun(src, Working(old(files), MAGIC_SIZE), rounds) == DoRun(src, Working(files, off), n)
      {
        DoRunOn(src, files, off, n);
        if off + HEADER_SIZE > |files[src]| {
          DoStepEnds(src, files, off);
          return false;
        }
        off := DoSegment(src, off);
        n := n - 1;
      }
      DoRunOn(src, files, off, 0);
      return true;
    }

    /** `__update_do`; the image is removed at the end. */
    method UpdateDo(path: Path, rounds: nat) returns (r: Outcome)
      modifies this
      ensures r == Performed(old(files), path, rounds).0 && files == Performed(old(files), path, rounds).1
    {
      hide Magic, DoRun;
      var more := false;
      r := Returned(false);
      if path in files {
        var img := files[path];
        if |img| > MAGIC_SIZE + HEADER_SIZE {
          if Magic(img) {
            more := DoSegments(path, rounds);
          }
          r := if more then Busy else Returned(true);
        }
      }
      if !more {
        files := files - {path};
      }
    }

    /** `__update_check( path ) && __update_do( path )`. Where no seek steps back and enough rounds are run, the files
        besides the image become those of the segments applied in order, if they all are as their headers say; and then
        every non-firmware file has the check of its header if and only if the segments agree on each path. */
    method CheckAndDo(path: Path, rounds: nat) returns (r: Outcome)
      modifies this
      ensures Straight(old(files), path) && rounds > |SegmentsOf(old(files), path)| ==>
        && r == Returned(Acceptable(old(files), path))
        && files == (if r.ok then ApplyAll(old(files), SegmentsOf(old(files), path)) else old(files)) - {path}
        && (r.ok && !Targets(SegmentsOf(old(files), path), path) ==>
              (Applied(files, SegmentsOf(old(files), path)) <==> Consistent(SegmentsOf(old(files), path))))
    {
      ghost var was := files;
      r := UpdateCheck(path, rounds);
      if r == Returned(true) {
        r := UpdateDo(path, rounds);
      }
      if Straight(was, path) && rounds > |SegmentsOf(was, path)| {
        CheckedExactly(was, path, rounds);
        if Acceptable(was, path) {
          PerformedExactly(was, path, rounds);
          AppliedAfter(was, path);
        }
      }
      hide Straight, SegmentsOf, Acceptable, Checked, Performed, ApplyAll, Targets, Applied, Consistent;
    }
  }
}
