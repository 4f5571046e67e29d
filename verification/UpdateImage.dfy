/** An update image and what applying it does, software/das/board/update.c, over a map from paths to contents. */
module UpdateImage {
  import opened Bytes
  import Crc32

  type Path = seq<bv8>
  type Files = map<Path, seq<bv8>>

  const HEADER_SIZE := 392
  const MAGIC_SIZE := 12
  /** "#-firm-#-ware-#" */
  const FIRMWARE_PATH: Path :=
    [0x23, 0x2D, 0x66, 0x69, 0x72, 0x6D, 0x2D, 0x23, 0x2D, 0x77, 0x61, 0x72, 0x65, 0x2D, 0x23]

  /** One piece of an image: its header and as much of its body as the image holds. `back` says that seeking over the
      body leads back, to a position at which a whole header can be read again. */
  datatype Segment = Segment(path: Path, crc: bv32, body: seq<bv8>, back: bool)
  {
    predicate Firmware() {
      path == FIRMWARE_PATH
    }

    predicate Good() {
      Firmware() || Crc32.Crc(0, body) == crc
    }
  }

  function WordAt(img: seq<bv8>, off: nat): bv32
    requires off + 4 <= |img|
  {
    LeWord(img[off], img[off + 1], img[off + 2], img[off + 3])
  }

  function PathAt(img: seq<bv8>, off: nat): Path
    requires off + HEADER_SIZE <= |img|
  {
    CString(img[off..off + HEADER_SIZE])
  }

  /** The length word of the header at `off`. */
  function LengthWord(img: seq<bv8>, off: nat): Word
    requires off + HEADER_SIZE <= |img|
  {
    WordAt(img, off + 384) as int
  }

  function CrcAt(img: seq<bv8>, off: nat): bv32
    requires off + HEADER_SIZE <= |img|
  {
    WordAt(img, off + 388)
  }

  /** What the body loops ask for: their counter is an `int`, and they do nothing for a negative one. */
  function LengthAt(img: seq<bv8>, off: nat): nat
    requires off + HEADER_SIZE <= |img|
  {
    if LengthWord(img, off) < 0x8000_0000 then LengthWord(img, off) else 0
  }

  /** Where the body loops stop. */
  function NextAt(img: seq<bv8>, off: nat): (next: nat)
    requires off + HEADER_SIZE <= |img|
    ensures off + HEADER_SIZE <= next <= |img|
  {
    Min(off + HEADER_SIZE + LengthAt(img, off), |img|)
  }

  /** `lseek( fd, n, SEEK_CUR )`, where a word of 2^31 or more is a negative offset: the position stays as it is
      when the result would be negative. */
  function Seek(pos: nat, n: Word): nat {
    if n < 0x8000_0000 then pos + n
    else if pos + n < TWO32 then pos
    else pos + n - TWO32
  }

  /** Where seeking over the body of the header at `off` leads. */
  function SeekAt(img: seq<bv8>, off: nat): nat
    requires off + HEADER_SIZE <= |img|
  {
    Seek(off + HEADER_SIZE, LengthWord(img, off))
  }

  function SegmentAt(img: seq<bv8>, off: nat): Segment
    requires off + HEADER_SIZE <= |img|
  {
    Segment(PathAt(img, off), CrcAt(img, off), img[off + HEADER_SIZE..NextAt(img, off)],
            SeekAt(img, off) < off + HEADER_SIZE && SeekAt(img, off) + HEADER_SIZE <= |img|)
  }

  /** Every segment from `off` to the end, one behind the other. */
  function Segments(img: seq<bv8>, off: nat): seq<Segment>
    decreases |img| - off
  {
    if off + HEADER_SIZE > |img| then [] else [SegmentAt(img, off)] + Segments(img, NextAt(img, off))
  }

  /** And where their headers stand. */
  function Offsets(img: seq<bv8>, off: nat): (o: seq<nat>)
    ensures |o| == |Segments(img, off)|
    decreases |img| - off
  {
    if off + HEADER_SIZE > |img| then [] else [off] + Offsets(img, NextAt(img, off))
  }

  predicate Magic(img: seq<bv8>) {
    && |img| >= MAGIC_SIZE
    && WordAt(img, 0) == 0x526F2678 && WordAt(img, 4) == 0x1B5C4DEE && WordAt(img, 8) == 0x67FAB5CD
  }

  /** What `__file_crc` returns: the check of the contents, zero for a missing file. */
  function FileCheck(files: Files, path: Path): bv32 {
    if path in files then Crc32.Crc(0, files[path]) else 0
  }

  /** The segments `__update_do` seeks over: the firmware, and a file that has the check already. */
  predicate Skips(files: Files, s: Segment) {
    s.Firmware() || FileCheck(files, s.path) == s.crc
  }

  /** One segment of `__update_do`. */
  function Apply(files: Files, s: Segment): Files {
    if Skips(files, s) then files else files[s.path := s.body]
  }

  function ApplyAll(files: Files, segs: seq<Segment>): Files {
    if segs == [] then files else Apply(ApplyAll(files, segs[..|segs| - 1]), segs[|segs| - 1])
  }

  predicate AllGood(segs: seq<Segment>) {
    forall i :: 0 <= i < |segs| ==> segs[i].Good()
  }

  /** Every non-firmware file has the check its header announces. */
  predicate Applied(files: Files, segs: seq<Segment>) {
    forall i :: 0 <= i < |segs| ==> Skips(files, segs[i])
  }

  /** No two segments want different contents at one path. */
  predicate Consistent(segs: seq<Segment>) {
    forall i, j :: 0 <= i < j < |segs| && segs[i].path == segs[j].path && !segs[i].Firmware() ==>
      segs[i].crc == segs[j].crc
  }

  /** A segment that passed the check leaves its own file right. */
  lemma ApplyOne(files: Files, s: Segment)
    requires s.Good()
    ensures Skips(Apply(files, s), s)
    ensures forall p :: p != s.path ==> FileCheck(Apply(files, s), p) == FileCheck(files, p)
  {
  }

  lemma {:induction false} ConsistentApplies(files: Files, segs: seq<Segment>)
    requires AllGood(segs) && Consistent(segs)
    ensures Applied(ApplyAll(files, segs), segs)
  {
    if segs != [] {
      var m := |segs| - 1;
      var before := ApplyAll(files, segs[..m]);
      ConsistentApplies(files, segs[..m]);
      ApplyOne(before, segs[m]);
      forall i | 0 <= i < m
        ensures Skips(Apply(before, segs[m]), segs[i])
      {
        assert segs[..m][i] == segs[i] && Skips(before, segs[..m][i]);
      }
    }
  }

  /** A checked image is applied in full exactly when its segments agree on each path; distinct paths always do. */
  lemma AppliedExactly(files: Files, segs: seq<Segment>)
    requires AllGood(segs)
    ensures Applied(ApplyAll(files, segs), segs) <==> Consistent(segs)
  {
    if Consistent(segs) {
      ConsistentApplies(files, segs);
    }
  }

  /** Once applied, applying again changes nothing: every segment is skipped. */
  lemma {:induction false} ApplyAgain(files: Files, segs: seq<Segment>)
    requires Applied(files, segs)
    ensures ApplyAll(files, segs) == files
  {
    if segs != [] {
      var m := |segs| - 1;
      forall i | 0 <= i < m
        ensures Skips(files, segs[..m][i])
      {
        assert segs[..m][i] == segs[i];
      }
      ApplyAgain(files, segs[..m]);
      assert Skips(files, segs[m]);
    }
  }

  /** The first segment can be applied before the others. */
  lemma {:induction false} ApplyFront(files: Files, s: Segment, segs: seq<Segment>)
    ensures ApplyAll(files, [s] + segs) == ApplyAll(Apply(files, s), segs)
  {
    hide Apply;
    var all := [s] + segs;
    if segs == [] {
      assert all[..0] == [];
    } else {
      assert all[..|all| - 1] == [s] + segs[..|segs| - 1];
      ApplyFront(files, s, segs[..|segs| - 1]);
    }
  }

  /** Some segment writes to the path. */
  predicate Targets(segs: seq<Segment>, path: Path) {
    exists i :: 0 <= i < |segs| && !segs[i].Firmware() && segs[i].path == path
  }

  lemma AppliedWithout(files: Files, segs: seq<Segment>, path: Path)
    requires !Targets(segs, path)
    ensures Applied(files - {path}, segs) <==> Applied(files, segs)
  {
    hide Crc32.Crc;
    forall i | 0 <= i < |segs|
      ensures Skips(files - {path}, segs[i]) <==> Skips(files, segs[i])
    {
      assert segs[i].Firmware() || segs[i].path != path;
    }
  }
}
