/** The planning core of anim_cam_manager.py: which camera rows take part
    in the uber camera and which warnings that raises (`filter_cameras`),
    what each row contributes (`copy_cam_keyframes` as a plan of helper
    calls), how the build is arranged (`create_uber_cam`), and how the
    spinboxes of the included rows are linked and coloured
    (`track_colour`, `reset_widget_colours`). The rows are taken in the
    order the scene lists the cameras; nothing is sorted. */
module AnimCamManager {
  import opened Wrappers
  import opened Seqs
  import opened FrameSpinbox
  import opened CamEntry

  // ============================================================ filtering

  function InvertedRangeWarning(name: string): string {
    "Ignoring " + name + " as in frame greater than out frame."
  }

  function OverlapWarning(name: string): string {
    "Ignoring " + name + " as out frame overlaps with next camera."
  }

  /** The gap warning, spelling included. */
  const GapWarning: string :=
    "On at lease one occasion, "
    + "there are gaps of more than one frame "
    + "between out frame and next in frame."

  /** A checked row whose range is the right way round survives the first
      pass. */
  predicate IsCandidate(e: Entry) {
    e.included && e.inFrame <= e.outFrame
  }

  /** A checked row whose in-frame lies after its out-frame. */
  predicate IsInverted(e: Entry) {
    e.included && e.inFrame > e.outFrame
  }

  /** One warning per row, built from the row's camera name. */
  function WarnAll(es: seq<Entry>, message: string -> string): (ws: seq<string>)
    ensures |ws| == |es|
    ensures forall i :: 0 <= i < |es| ==> ws[i] == message(es[i].name)
  {
    seq(|es|, i requires 0 <= i < |es| => message(es[i].name))
  }

  lemma WarnAllCons(e: Entry, es: seq<Entry>, message: string -> string)
    ensures WarnAll([e] + es, message) == [message(e.name)] + WarnAll(es, message)
  {
  }

  lemma WarnOne(e: Entry, message: string -> string)
    ensures WarnAll([e], message) == [message(e.name)]
  {
  }

  /** The rows a pass keeps and the warnings it appends. */
  datatype Pass = Pass(kept: seq<Entry>, warnings: seq<string>)

  /** The first loop of `filter_cameras`: it keeps the candidates and warns,
      in row order, about every checked row with an inverted range. Rows
      that are not checked leave no trace. */
  function FirstPass(es: seq<Entry>): (r: Pass)
    ensures r.kept == Filter(es, IsCandidate)
    ensures r.warnings == WarnAll(Filter(es, IsInverted), InvertedRangeWarning)
  {
    if |es| == 0 then Pass([], [])
    else
      var rest := FirstPass(es[1..]);
      WarnAllCons(es[0], Filter(es[1..], IsInverted), InvertedRangeWarning);
      if !es[0].included then rest
      else if es[0].inFrame > es[0].outFrame then
        Pass(rest.kept, [InvertedRangeWarning(es[0].name)] + rest.warnings)
      else Pass([es[0]] + rest.kept, rest.warnings)
  }

  /** Candidate `i` ends on or after the in-frame of the candidate that
      follows it in the first-pass list. The last candidate has no
      follower. */
  predicate OverlapsNext(cands: seq<Entry>, i: int)
    requires 0 <= i < |cands|
  {
    i < |cands| - 1 && cands[i].outFrame >= cands[i + 1].inFrame
  }

  /** The positions `j >= i` of `cands` that overlap (or do not overlap)
      their follower, in increasing order. */
  function Positions(cands: seq<Entry>, i: int, overlapping: bool): (r: seq<int>)
    requires 0 <= i <= |cands|
    ensures forall k :: 0 <= k < |r| ==> i <= r[k] < |cands| && OverlapsNext(cands, r[k]) == overlapping
    ensures forall j :: i <= j < |cands| && OverlapsNext(cands, j) == overlapping ==> j in r
    ensures forall k, l :: 0 <= k < l < |r| ==> r[k] < r[l]
    decreases |cands| - i
  {
    if i == |cands| then []
    else if OverlapsNext(cands, i) == overlapping then [i] + Positions(cands, i + 1, overlapping)
    else Positions(cands, i + 1, overlapping)
  }

  /** The rows at the given positions. */
  function Pick(cands: seq<Entry>, positions: seq<int>): (r: seq<Entry>)
    requires forall k :: 0 <= k < |positions| ==> 0 <= positions[k] < |cands|
    ensures |r| == |positions|
    ensures forall k :: 0 <= k < |r| ==> r[k] == cands[positions[k]]
  {
    seq(|positions|, k requires 0 <= k < |positions| => cands[positions[k]])
  }

  lemma PickCons(cands: seq<Entry>, p: int, positions: seq<int>)
    requires 0 <= p < |cands|
    requires forall k :: 0 <= k < |positions| ==> 0 <= positions[k] < |cands|
    ensures Pick(cands, [p] + positions) == [cands[p]] + Pick(cands, positions)
  {
  }

  /** The second loop of `filter_cameras`, from candidate `i` on: a
      candidate is dropped, with a warning, exactly when it overlaps its
      follower in the first-pass list; the comparison is never redone
      against the rows that survive. */
  function SecondPass(cands: seq<Entry>, i: int): (r: Pass)
    requires 0 <= i <= |cands|
    ensures r.kept == Pick(cands, Positions(cands, i, false))
    ensures r.warnings == WarnAll(Pick(cands, Positions(cands, i, true)), OverlapWarning)
    ensures |r.kept| + |r.warnings| == |cands| - i
    ensures Subseq(r.kept, cands[i..])
    ensures i < |cands| ==> |r.kept| > 0 && r.kept[|r.kept| - 1] == cands[|cands| - 1]
    decreases |cands| - i
  {
    if i == |cands| then Pass([], [])
    else
      var rest := SecondPass(cands, i + 1);
      SecondPassStep(cands, i, rest);
      if OverlapsNext(cands, i) then
        Pass(rest.kept, [OverlapWarning(cands[i].name)] + rest.warnings)
      else Pass([cands[i]] + rest.kept, rest.warnings)
  }

  lemma SecondPassStep(cands: seq<Entry>, i: int, rest: Pass)
    requires 0 <= i < |cands|
    requires rest.kept == Pick(cands, Positions(cands, i + 1, false))
    requires rest.warnings == WarnAll(Pick(cands, Positions(cands, i + 1, true)), OverlapWarning)
    requires Subseq(rest.kept, cands[i + 1..])
    ensures OverlapsNext(cands, i) ==>
              Pick(cands, Positions(cands, i, false)) == rest.kept &&
              WarnAll(Pick(cands, Positions(cands, i, true)), OverlapWarning) == [OverlapWarning(cands[i].name)] + rest.warnings &&
              Subseq(rest.kept, cands[i..])
    ensures !OverlapsNext(cands, i) ==>
              Pick(cands, Positions(cands, i, false)) == [cands[i]] + rest.kept &&
              WarnAll(Pick(cands, Positions(cands, i, true)), OverlapWarning) == rest.warnings &&
              Subseq([cands[i]] + rest.kept, cands[i..])
  {
    assert cands[i..] == [cands[i]] + cands[i + 1..];
    SubseqCons(cands[i], rest.kept, cands[i + 1..]);
    if OverlapsNext(cands, i) {
      PickCons(cands, i, Positions(cands, i + 1, true));
      WarnAllCons(cands[i], Pick(cands, Positions(cands, i + 1, true)), OverlapWarning);
    } else {
      PickCons(cands, i, Positions(cands, i + 1, false));
    }
  }

  /** The candidates of a row list: the first-pass survivors. */
  function Candidates(es: seq<Entry>): seq<Entry> {
    Filter(es, IsCandidate)
  }

  /** `filter_cameras`: the rows that take part, in row order, and the
      warnings appended while choosing them: first one per inverted row,
      then one per overlapping candidate. Neither kind is deduplicated. */
  function FilterCameras(es: seq<Entry>): (r: Pass)
    ensures Subseq(r.kept, es)
    ensures forall i :: 0 <= i < |r.kept| ==> IsCandidate(r.kept[i])
    ensures |es| == 0 ==> r == Pass([], [])
    ensures r.kept == Pick(Candidates(es), Positions(Candidates(es), 0, false))
    ensures r.warnings == WarnAll(Filter(es, IsInverted), InvertedRangeWarning)
                        + WarnAll(Pick(Candidates(es), Positions(Candidates(es), 0, true)), OverlapWarning)
  {
    var first := FirstPass(es);
    assert first.kept == Candidates(es);
    var second := SecondPass(first.kept, 0);
    SecondPassKeeps(es, first.kept, second.kept);
    Pass(second.kept, first.warnings + second.warnings)
  }

  /** The last candidate always survives: nothing follows it to overlap. */
  lemma LastCandidateKept(es: seq<Entry>)
    ensures var cands := Candidates(es);
            var kept := FilterCameras(es).kept;
            |cands| > 0 ==> |kept| > 0 && kept[|kept| - 1] == cands[|cands| - 1]
  {
    var second := SecondPass(Candidates(es), 0);
    assert FilterCameras(es).kept == second.kept;
  }

  /** The survivors of the second pass, run over the candidates, are
      candidates taken in row order. */
  lemma SecondPassKeeps(es: seq<Entry>, cands: seq<Entry>, kept: seq<Entry>)
    requires cands == Candidates(es)
    requires kept == SecondPass(cands, 0).kept
    ensures Subseq(kept, es)
    ensures forall i :: 0 <= i < |kept| ==> IsCandidate(kept[i])
  {
    assert cands[0..] == cands;
    SubseqTrans(kept, cands, es);
    CandidatesAreCandidates(es);
    PickedAreCandidates(cands, Positions(cands, 0, false));
  }

  lemma CandidatesAreCandidates(es: seq<Entry>)
    ensures forall k :: 0 <= k < |Candidates(es)| ==> IsCandidate(Candidates(es)[k])
  {
  }

  lemma PickedAreCandidates(cands: seq<Entry>, positions: seq<int>)
    requires forall k :: 0 <= k < |cands| ==> IsCandidate(cands[k])
    requires forall k :: 0 <= k < |positions| ==> 0 <= positions[k] < |cands|
    ensures forall k :: 0 <= k < |positions| ==> IsCandidate(Pick(cands, positions)[k])
  {
  }

  /** What the second pass does promise: candidate `j` is dropped, with a
      warning, exactly when it is not the last candidate and ends on or
      after the in-frame of its follower in the first-pass list; otherwise
      it is kept. */
  lemma DroppedIffOverlapsFollower(es: seq<Entry>, j: int)
    requires 0 <= j < |Candidates(es)|
    ensures var cands := Candidates(es);
            && (j in Positions(cands, 0, true) <==>
                  j < |cands| - 1 && cands[j].outFrame >= cands[j + 1].inFrame)
            && (j in Positions(cands, 0, false) <==> !(j in Positions(cands, 0, true)))
  {
  }

  /** What it does not promise: because a dropped candidate's follower is
      still compared with the original list, two survivors that end up
      next to each other can overlap. */
  lemma SurvivorsMayOverlap()
    ensures var a := Entry("|a|aShape", "a", "a", 1, 1, 30, true);
            var b := Entry("|b|bShape", "b", "b", 2, 40, 50, true);
            var c := Entry("|c|cShape", "c", "c", 3, 20, 60, true);
            var r := FilterCameras([a, b, c]);
            r.kept == [a, c] && r.kept[0].outFrame >= r.kept[1].inFrame &&
            r.warnings == [OverlapWarning("b")]
  {
    var a := Entry("|a|aShape", "a", "a", 1, 1, 30, true);
    var b := Entry("|b|bShape", "b", "b", 2, 40, 50, true);
    var c := Entry("|c|cShape", "c", "c", 3, 20, 60, true);
    MiddleDropped(a, b, c);
  }

  /** Three candidates where only the middle one overlaps its follower. */
  lemma MiddleDropped(a: Entry, b: Entry, c: Entry)
    requires IsCandidate(a) && IsCandidate(b) && IsCandidate(c)
    requires a.outFrame < b.inFrame && b.outFrame >= c.inFrame
    ensures FilterCameras([a, b, c]) == Pass([a, c], [OverlapWarning(b.name)])
  {
    var es := [a, b, c];
    FilterAll(es, IsCandidate);
    FilterNone(es, IsInverted);
    MiddlePositions(es);
    assert Pick(es, [0, 2]) == [a, c];
    assert Pick(es, [1]) == [b];
    WarnOne(b, OverlapWarning);
    assert WarnAll([], InvertedRangeWarning) == [];
  }

  lemma MiddlePositions(es: seq<Entry>)
    requires |es| == 3
    requires !OverlapsNext(es, 0) && OverlapsNext(es, 1)
    ensures Positions(es, 0, false) == [0, 2] && Positions(es, 0, true) == [1]
  {
    assert Positions(es, 2, false) == [2] && Positions(es, 2, true) == [];
    assert Positions(es, 1, false) == [2] && Positions(es, 1, true) == [1];
  }

  // ============================================================ key plans

  /** One helper call made while a row contributes its keys. The scratch
      object is the duplicate of the row's camera. */
  datatype Step =
    | Scratch(source: string)           // duplicate_camera(source): the scratch object
    | KeyAll(frame: int, insert: bool)  // set_keyframe_all_attr(scratch, frame, insert)
    | Extend(from: int, duration: int)  // extend_keyframe(scratch, from, duration)
    | CopyOut(start: int, end: int)     // copy_keyframes(scratch, uber camera, start, end)
    | DeleteScratch                     // delete(scratch)

  function InsertKeys(frames: seq<int>): (r: seq<Step>)
    ensures |r| == |frames|
    ensures forall i :: 0 <= i < |r| ==> r[i] == KeyAll(frames[i], true)
  {
    seq(|frames|, i requires 0 <= i < |frames| => KeyAll(frames[i], true))
  }

  /** The end of the range a row's keys are copied over. */
  function CopyEnd(e: Entry, next: Option<Entry>, bake: bool): int {
    if bake && next.Some? then next.value.inFrame else e.outFrame
  }

  /** `copy_cam_keyframes(row, next)`: duplicate the row's camera, reset its
      keys at frame 0, insert keys at the in- and out-frame, with baking
      insert a key at every frame from the in-frame up to (not including)
      the out-frame and, when another row follows, hold the out-frame values
      up to that row's in-frame; copy onto the uber camera; delete the
      duplicate. */
  function CopyCamKeyframes(e: Entry, next: Option<Entry>, bake: bool): (plan: seq<Step>)
    ensures |plan| >= 6
    ensures plan[0] == Scratch(e.path) && plan[1] == KeyAll(0, false)
    ensures plan[|plan| - 1] == DeleteScratch
    ensures plan[|plan| - 2] == CopyOut(e.inFrame, CopyEnd(e, next, bake))
    ensures forall i :: 0 <= i < |plan| ==> (plan[i].Scratch? <==> i == 0)
    ensures forall i :: 0 <= i < |plan| ==> (plan[i].CopyOut? <==> i == |plan| - 2)
    ensures forall i :: 0 <= i < |plan| ==> (plan[i].DeleteScratch? <==> i == |plan| - 1)
    ensures forall i :: 0 <= i < |plan| && plan[i].KeyAll? ==> (plan[i].insert <==> i != 1)
    // both ends of the row are keyed before any hold, so the value the hold
    // reads at the out-frame sits on a key of its own
    ensures plan[2] == KeyAll(e.inFrame, true) && plan[3] == KeyAll(e.outFrame, true)
    ensures forall i :: 0 <= i < |plan| && plan[i].Extend? ==> 3 < i && plan[i].from == e.outFrame
  {
    var s := e.inFrame;
    var t := e.outFrame;
    var head := [Scratch(e.path), KeyAll(0, false), KeyAll(s, true), KeyAll(t, true)];
    var baked := if bake then InsertKeys(Range(s, t)) else [];
    var extension := if bake && next.Some? then [Extend(t, next.value.inFrame - t)] else [];
    var plan := head + baked + extension + [CopyOut(s, CopyEnd(e, next, bake)), DeleteScratch];
    assert forall i :: 4 <= i < 4 + |baked| ==> plan[i] == baked[i - 4];
    assert forall i :: 4 + |baked| <= i < |plan| - 2 ==> plan[i] == extension[i - 4 - |baked|];
    plan
  }

  /** Some step of the plan inserts a key at frame `f`. */
  predicate Inserts(plan: seq<Step>, f: int) {
    exists i :: 0 <= i < |plan| && plan[i] == KeyAll(f, true)
  }

  /** Some step of the plan holds a value at frame `f`. */
  predicate Holds(plan: seq<Step>, f: int) {
    exists i :: 0 <= i < |plan| && plan[i].Extend? && plan[i].from < f <= plan[i].from + plan[i].duration
  }

  /** The inserted keys: the in- and out-frame, and with baking every frame
      between them. */
  lemma KeyPlanInserts(e: Entry, next: Option<Entry>, bake: bool, f: int)
    ensures Inserts(CopyCamKeyframes(e, next, bake), f) <==>
              f == e.inFrame || f == e.outFrame || (bake && e.inFrame <= f < e.outFrame)
  {
    var plan := CopyCamKeyframes(e, next, bake);
    var s := e.inFrame;
    var t := e.outFrame;
    var baked := if bake then InsertKeys(Range(s, t)) else [];
    var extension := if bake && next.Some? then [Extend(t, next.value.inFrame - t)] else [];
    assert plan == [Scratch(e.path), KeyAll(0, false), KeyAll(s, true), KeyAll(t, true)] + baked + extension
                   + [CopyOut(s, CopyEnd(e, next, bake)), DeleteScratch];
    assert forall i :: 4 <= i < 4 + |baked| ==> plan[i] == baked[i - 4];
    assert forall i :: 4 + |baked| <= i < |plan| - 2 ==> plan[i] == extension[i - 4 - |baked|];
    if f == s {
      assert plan[2] == KeyAll(f, true);
    } else if f == t {
      assert plan[3] == KeyAll(f, true);
    } else if bake && s <= f < t {
      assert plan[4 + (f - s)] == KeyAll(f, true);
    }
    if Inserts(plan, f) {
      var i :| 0 <= i < |plan| && plan[i] == KeyAll(f, true);
      if 4 <= i < 4 + |baked| {
        assert plan[i] == baked[i - 4];
      }
    }
  }

  /** The held frames: with baking and a following row, every frame after
      the out-frame up to the next row's in-frame; none otherwise, and none
      when the next row starts at or before the out-frame. */
  lemma KeyPlanHolds(e: Entry, next: Option<Entry>, bake: bool, f: int)
    ensures Holds(CopyCamKeyframes(e, next, bake), f) <==>
              bake && next.Some? && e.outFrame < f <= next.value.inFrame
  {
    var plan := CopyCamKeyframes(e, next, bake);
    var s := e.inFrame;
    var t := e.outFrame;
    var baked := if bake then InsertKeys(Range(s, t)) else [];
    var extension := if bake && next.Some? then [Extend(t, next.value.inFrame - t)] else [];
    assert plan == [Scratch(e.path), KeyAll(0, false), KeyAll(s, true), KeyAll(t, true)] + baked + extension
                   + [CopyOut(s, CopyEnd(e, next, bake)), DeleteScratch];
    assert forall i :: 4 <= i < 4 + |baked| ==> plan[i] == baked[i - 4];
    assert forall i :: 4 + |baked| <= i < |plan| - 2 ==> plan[i] == extension[i - 4 - |baked|];
    if bake && next.Some? && t < f <= next.value.inFrame {
      assert plan[4 + |baked|] == Extend(t, next.value.inFrame - t);
    }
    if Holds(plan, f) {
      var i :| 0 <= i < |plan| && plan[i].Extend? && plan[i].from < f <= plan[i].from + plan[i].duration;
      if 4 + |baked| <= i < |plan| - 2 {
        assert plan[i] == extension[i - 4 - |baked|];
      }
    }
  }

  /** Every key written on the duplicate inside the row's range lands in the
      copied range exactly when the copy does not stop before the
      out-frame, which happens only when a following row starts before
      this row ends. */
  lemma CopyCoversWrittenKeys(e: Entry, next: Option<Entry>, bake: bool)
    requires e.inFrame <= e.outFrame
    ensures var plan := CopyCamKeyframes(e, next, bake);
            (forall f :: Inserts(plan, f) || Holds(plan, f) ==> e.inFrame <= f <= CopyEnd(e, next, bake))
            <==> !(bake && next.Some? && next.value.inFrame < e.outFrame)
  {
    var plan := CopyCamKeyframes(e, next, bake);
    forall f | Inserts(plan, f) || Holds(plan, f)
      ensures !(bake && next.Some? && next.value.inFrame < e.outFrame) ==> e.inFrame <= f <= CopyEnd(e, next, bake)
    {
      KeyPlanInserts(e, next, bake, f);
      KeyPlanHolds(e, next, bake, f);
    }
    KeyPlanInserts(e, next, bake, e.outFrame);
  }

  /** The reset key at frame 0 is outside the copied range unless the row
      starts at frame 0. */
  lemma ResetKeyNotCopied(e: Entry, next: Option<Entry>, bake: bool)
    requires e.inFrame > 0
    ensures var plan := CopyCamKeyframes(e, next, bake);
            plan[1] == KeyAll(0, false) && !(plan[|plan| - 2].start <= 0)
  {
  }

  // ================================================================ build

  /** A consecutive pair of survivors that does not join frame to frame. */
  predicate GapAfter(kept: seq<Entry>, i: int)
    requires 0 <= i < |kept| - 1
  {
    kept[i].outFrame + 1 != kept[i + 1].inFrame
  }

  predicate HasGapFrom(kept: seq<Entry>, i: int) {
    exists j :: i <= j < |kept| - 1 && 0 <= j && GapAfter(kept, j)
  }

  /** The loop of `create_uber_cam` that looks for gaps from pair `i` on:
      the gap warning is appended once, only when some pair has a gap and
      the list does not already hold it. */
  function GapWarnings(kept: seq<Entry>, i: int, acc: seq<string>): (r: seq<string>)
    requires 0 <= i
    ensures r == acc + (if GapWarning !in acc && HasGapFrom(kept, i) then [GapWarning] else [])
    decreases |kept| - i
  {
    if i >= |kept| - 1 then acc
    else
      var acc' := if GapAfter(kept, i) && GapWarning !in acc then acc + [GapWarning] else acc;
      assert HasGapFrom(kept, i) <==> GapAfter(kept, i) || HasGapFrom(kept, i + 1);
      GapWarnings(kept, i + 1, acc')
  }

  /** The name the single-survivor path gives its duplicate, whatever name
      the window asks for. */
  const FastPathName: string := "UberCam"

  /** The camera a build leaves in the scene. */
  datatype OutputCamera =
    | Renamed(source: string, name: string)  // duplicate_camera(source), renamed
    | Created(name: string)                  // a new camera keyed from the plans

  /** A build: the camera, one key plan per survivor, the warnings shown in
      the dialog, the warnings still pending afterwards, and whether the
      window closes. */
  datatype Build = Build(
    camera: OutputCamera,
    plans: seq<seq<Step>>,
    shown: seq<string>,
    pending: seq<string>,
    closesWindow: bool)

  /** The survivor that follows survivor `i`, if any. */
  function Follower(kept: seq<Entry>, i: int): Option<Entry>
    requires 0 <= i < |kept|
  {
    if i == |kept| - 1 then None else Some(kept[i + 1])
  }

  /** `create_uber_cam` once `filter_cameras` has chosen the rows `f`:
      with one survivor its camera is duplicated and renamed and the
      warnings stay pending (the window stays open); otherwise a camera is
      created under the requested name, every survivor contributes its key
      plan with the survivor after it as successor, and the warnings,
      completed by the gap warning, are shown and cleared as the window
      closes. */
  function BuildFrom(f: Pass, pending: seq<string>, bake: bool, cameraName: string): (r: Build)
    ensures r.camera.Renamed? <==> |f.kept| == 1
    ensures r.camera.Renamed? ==>
              r.camera == Renamed(f.kept[0].path, FastPathName) && r.plans == [] && r.shown == []
              && r.pending == pending + f.warnings && !r.closesWindow
    ensures r.camera.Created? ==>
              r.camera.name == cameraName && r.pending == [] && r.closesWindow
              && |r.plans| == |f.kept|
              && (forall i :: 0 <= i < |f.kept| ==> r.plans[i] == CopyCamKeyframes(f.kept[i], Follower(f.kept, i), bake))
              && r.shown == pending + f.warnings
                            + (if GapWarning !in pending + f.warnings && HasGapFrom(f.kept, 0) then [GapWarning] else [])
  {
    var warnings := pending + f.warnings;
    if |f.kept| == 1 then Build(Renamed(f.kept[0].path, FastPathName), [], [], warnings, false)
    else
      var plans := seq(|f.kept|, i requires 0 <= i < |f.kept| => CopyCamKeyframes(f.kept[i], Follower(f.kept, i), bake));
      Build(Created(cameraName), plans, GapWarnings(f.kept, 0, warnings), [], true)
  }

  /** `create_uber_cam`, with `pending` the warnings the window still holds
      and `cameraName` the text of the name field. Every camera it copies
      from is a checked row the right way round; what it shows and plans
      for the survivors is stated by `BuildFrom`. */
  function CreateUberCam(es: seq<Entry>, pending: seq<string>, bake: bool, cameraName: string): (r: Build)
    ensures r.camera.Renamed? ==>
              exists j :: 0 <= j < |es| && IsCandidate(es[j]) && r.camera.source == es[j].path
    ensures r.camera.Created? ==> forall i :: 0 <= i < |r.plans| ==>
              |r.plans[i]| > 0 &&
              exists j :: 0 <= j < |es| && IsCandidate(es[j]) && r.plans[i][0] == Scratch(es[j].path)
  {
    var f := FilterCameras(es);
    SubseqMembers(f.kept, es);
    BuildSources(f, es, pending, bake, cameraName);
    BuildFrom(f, pending, bake, cameraName)
  }

  /** A build copies only from the rows it is given. */
  lemma BuildSources(f: Pass, es: seq<Entry>, pending: seq<string>, bake: bool, cameraName: string)
    requires forall e :: e in f.kept ==> e in es && IsCandidate(e)
    ensures var r := BuildFrom(f, pending, bake, cameraName);
            r.camera.Renamed? ==>
              exists j :: 0 <= j < |es| && IsCandidate(es[j]) && r.camera.source == es[j].path
    ensures var r := BuildFrom(f, pending, bake, cameraName);
            r.camera.Created? ==> forall i :: 0 <= i < |r.plans| ==>
              |r.plans[i]| > 0 &&
              exists j :: 0 <= j < |es| && IsCandidate(es[j]) && r.plans[i][0] == Scratch(es[j].path)
  {
    var r := BuildFrom(f, pending, bake, cameraName);
    if r.camera.Renamed? {
      assert f.kept[0] in es;
    } else {
      forall i | 0 <= i < |r.plans|
        ensures |r.plans[i]| > 0 &&
                exists j :: 0 <= j < |es| && IsCandidate(es[j]) && r.plans[i][0] == Scratch(es[j].path)
      {
        assert r.plans[i][0] == Scratch(f.kept[i].path);
        assert f.kept[i] in es;
      }
    }
  }

  /** Filter warnings are never the gap warning. */
  lemma FilterWarningsAreNotGapWarnings(es: seq<Entry>)
    ensures GapWarning !in FilterCameras(es).warnings
  {
    var inverted := Filter(es, IsInverted);
    var overlapping := Pick(Candidates(es), Positions(Candidates(es), 0, true));
    WarnAllNotGap(inverted, InvertedRangeWarning);
    WarnAllNotGap(overlapping, OverlapWarning);
  }

  lemma WarnAllNotGap(es: seq<Entry>, message: string -> string)
    requires message == InvertedRangeWarning || message == OverlapWarning
    ensures GapWarning !in WarnAll(es, message)
  {
    var ws := WarnAll(es, message);
    assert GapWarning[0] == 'O';
    forall i | 0 <= i < |ws|
      ensures ws[i] != GapWarning
    {
      assert ws[i] == message(es[i].name);
      assert ws[i][0] == 'I';
    }
  }

  /** With no gap warning pending, a build with several survivors (or none)
      shows the gap warning once when some consecutive pair of survivors
      has a gap, and not at all otherwise. */
  lemma GapWarningAtMostOnce(es: seq<Entry>, pending: seq<string>, bake: bool, cameraName: string)
    requires GapWarning !in pending
    ensures var r := CreateUberCam(es, pending, bake, cameraName);
            r.camera.Created? ==>
              multiset(r.shown)[GapWarning] == (if HasGapFrom(FilterCameras(es).kept, 0) then 1 else 0)
  {
    FilterWarningsAreNotGapWarnings(es);
    var ws := pending + FilterCameras(es).warnings;
    assert GapWarning !in ws;
    assert multiset(ws)[GapWarning] == 0;
  }

  /** Zero survivors still create a camera, with nothing to copy. */
  lemma NoSurvivorsStillCreates(es: seq<Entry>, pending: seq<string>, bake: bool, cameraName: string)
    requires forall i :: 0 <= i < |es| ==> !IsCandidate(es[i])
    ensures var r := CreateUberCam(es, pending, bake, cameraName);
            r.camera == Created(cameraName) && r.plans == [] && r.pending == []
  {
    FilterNone(es, IsCandidate);
    assert Positions(Candidates(es), 0, false) == [];
  }

  /** Two rows one after the other with a gap of four frames, baked: the
      first row holds its out-frame values over frames 11 to 15, copies over
      [1, 15], and the gap warning is shown once. */
  lemma GapScenario(pending: seq<string>)
    requires GapWarning !in pending
    ensures var a := Entry("|A|AShape", "A", "A", 1, 1, 10, true);
            var b := Entry("|B|BShape", "B", "B", 2, 15, 20, true);
            var r := CreateUberCam([a, b], pending, true, "UberCam");
            && r.camera == Created("UberCam")
            && |r.plans| == 2
            && (forall f :: Holds(r.plans[0], f) <==> 11 <= f <= 15)
            && r.plans[0][|r.plans[0]| - 2] == CopyOut(1, 15)
            && r.shown == pending + [GapWarning]
  {
    var a := Entry("|A|AShape", "A", "A", 1, 1, 10, true);
    var b := Entry("|B|BShape", "B", "B", 2, 15, 20, true);
    GapBetweenTwoRows(a, b, pending, "UberCam");
    forall x
      ensures Holds(CopyCamKeyframes(a, Some(b), true), x) <==> 11 <= x <= 15
    {
      KeyPlanHolds(a, Some(b), true, x);
    }
  }

  /** Two baked rows with a gap between them: a camera is created, the first
      row's plan is built with the second as successor, the second's with
      none, and the gap warning is shown after the pending ones. */
  lemma GapBetweenTwoRows(a: Entry, b: Entry, pending: seq<string>, cameraName: string)
    requires IsCandidate(a) && IsCandidate(b) && a.outFrame + 1 < b.inFrame
    requires GapWarning !in pending
    ensures var r := CreateUberCam([a, b], pending, true, cameraName);
            && r.camera == Created(cameraName)
            && r.plans == [CopyCamKeyframes(a, Some(b), true), CopyCamKeyframes(b, None, true)]
            && r.shown == pending + [GapWarning]
  {
    TwoRowsKept(a, b);
    TwoRowBuild(a, b, pending, cameraName);
  }

  lemma TwoRowBuild(a: Entry, b: Entry, pending: seq<string>, cameraName: string)
    requires a.outFrame + 1 < b.inFrame
    requires GapWarning !in pending
    ensures var r := BuildFrom(Pass([a, b], []), pending, true, cameraName);
            && r.camera == Created(cameraName)
            && r.plans == [CopyCamKeyframes(a, Some(b), true), CopyCamKeyframes(b, None, true)]
            && r.shown == pending + [GapWarning]
  {
    assert GapAfter([a, b], 0);
    assert HasGapFrom([a, b], 0);
    assert pending + [] == pending;
  }

  /** Two candidates that do not overlap both survive, without warnings. */
  lemma TwoRowsKept(a: Entry, b: Entry)
    requires IsCandidate(a) && IsCandidate(b) && a.outFrame < b.inFrame
    ensures FilterCameras([a, b]) == Pass([a, b], [])
  {
    var es := [a, b];
    FilterAll(es, IsCandidate);
    FilterNone(es, IsInverted);
    PairPositions(es);
    assert Pick(es, [0, 1]) == es;
    assert WarnAll([], InvertedRangeWarning) == [] && WarnAll([], OverlapWarning) == [];
  }

  lemma PairPositions(es: seq<Entry>)
    requires |es| == 2 && !OverlapsNext(es, 0)
    ensures Positions(es, 0, false) == [0, 1] && Positions(es, 0, true) == []
  {
    assert Positions(es, 1, false) == [1] && Positions(es, 1, true) == [];
  }

  // ============================================================== colours

  /** A frame spinbox of a row: its value and whether it is the in-frame. */
  datatype Spinbox = Spinbox(value: int, isInFrame: bool)

  /** The spinboxes among a row's widgets, in widget order. */
  function RowSpinboxes(e: Entry): seq<Spinbox> {
    SpinboxesAmong(e, Widgets(e))
  }

  function SpinboxesAmong(e: Entry, ws: seq<Widget>): seq<Spinbox> {
    if |ws| == 0 then []
    else
      var here := match ws[0]
        case InFrameBox => [Spinbox(e.inFrame, true)]
        case OutFrameBox => [Spinbox(e.outFrame, false)]
        case _ => [];
      here + SpinboxesAmong(e, ws[1..])
  }

  lemma RowSpinboxesInThenOut(e: Entry)
    ensures RowSpinboxes(e) == [Spinbox(e.inFrame, true), Spinbox(e.outFrame, false)]
  {
    var ws := Widgets(e);
    assert ws[1..][1..][1..][1..] == [];
    assert SpinboxesAmong(e, [IncludeBox]) == [] by {
      assert [IncludeBox][1..] == [];
    }
    assert SpinboxesAmong(e, [OutFrameBox, IncludeBox]) == [Spinbox(e.outFrame, false)] by {
      assert [OutFrameBox, IncludeBox][1..] == [IncludeBox];
    }
    assert SpinboxesAmong(e, [InFrameBox, OutFrameBox, IncludeBox]) == [Spinbox(e.inFrame, true), Spinbox(e.outFrame, false)] by {
      assert [InFrameBox, OutFrameBox, IncludeBox][1..] == [OutFrameBox, IncludeBox];
    }
    assert ws[1..] == [InFrameBox, OutFrameBox, IncludeBox];
  }

  predicate Included(e: Entry) {
    e.included
  }

  /** Two spinboxes per row, in-frame first, for each row of `inc`. */
  predicate Interleaves(r: seq<Spinbox>, inc: seq<Entry>) {
    |r| == 2 * |inc| &&
    forall j :: 0 <= j < |inc| ==>
      r[2 * j] == Spinbox(inc[j].inFrame, true) && r[2 * j + 1] == Spinbox(inc[j].outFrame, false)
  }

  /** The list `reset_widget_colours` builds: the spinboxes of the checked
      rows, in row order, each row's in-frame before its out-frame. */
  function SpinboxList(es: seq<Entry>): (r: seq<Spinbox>)
    ensures Interleaves(r, Filter(es, Included))
  {
    if |es| == 0 then []
    else
      var rest := SpinboxList(es[1..]);
      var e := es[0];
      RowSpinboxesInThenOut(e);
      if e.included then
        InterleavesCons(e, rest, Filter(es[1..], Included));
        RowSpinboxes(e) + rest
      else rest
  }

  lemma InterleavesCons(e: Entry, rest: seq<Spinbox>, inc: seq<Entry>)
    requires Interleaves(rest, inc)
    ensures Interleaves([Spinbox(e.inFrame, true), Spinbox(e.outFrame, false)] + rest, [e] + inc)
  {
    var r := [Spinbox(e.inFrame, true), Spinbox(e.outFrame, false)] + rest;
    var inc' := [e] + inc;
    forall j | 0 <= j < |inc'|
      ensures r[2 * j] == Spinbox(inc'[j].inFrame, true) && r[2 * j + 1] == Spinbox(inc'[j].outFrame, false)
    {
      if j > 0 {
        assert 2 * j == 2 * (j - 1) + 2;
        assert inc'[j] == inc[j - 1];
        assert r[2 * j] == rest[2 * (j - 1)];
        assert r[2 * j + 1] == rest[2 * (j - 1) + 1];
      }
    }
  }

  /** Neighbour links of one spinbox, as positions in the list. */
  datatype Links = Links(prev: Option<nat>, next: Option<nat>)

  /** `track_colour` over a list of `n` spinboxes whose links are `stale`
      beforehand: each spinbox is linked to the one before and the one after
      it, the ends only inwards; a single spinbox gets no links. */
  method TrackColour(n: nat, stale: seq<Links>) returns (links: seq<Links>)
    requires |stale| == n
    ensures |links| == n
    ensures forall k :: 0 <= k < n ==> links[k].prev == (if k > 0 then Some(k - 1) else None)
    ensures forall k :: 0 <= k < n ==> links[k].next == (if k < n - 1 then Some(k + 1) else None)
  {
    links := stale;
    var k := 0;
    while k < n
      invariant 0 <= k <= n && |links| == n
      invariant forall m :: 0 <= m < k ==> links[m].prev == (if m > 0 then Some(m - 1) else None)
      invariant forall m :: 0 <= m < k ==> links[m].next == (if m < n - 1 then Some(m + 1) else None)
    {
      links := links[k := Links(None, None)];
      if n == 1 {
        break;
      }
      if k != 0 {
        links := links[k := links[k].(prev := Some(k - 1))];
      }
      if k != n - 1 {
        links := links[k := links[k].(next := Some(k + 1))];
      }
      k := k + 1;
    }
  }

  /** The colour of spinbox `k` of the list, from its own value and the
      values of the spinboxes next to it in the list. */
  function ColourAt(sbs: seq<Spinbox>, k: int): Option<Status>
    requires 0 <= k < |sbs|
  {
    UpdateColour(sbs[k].value, sbs[k].isInFrame,
                 if k > 0 then Some(sbs[k - 1].value) else None,
                 if k < |sbs| - 1 then Some(sbs[k + 1].value) else None)
  }

  function Colours(sbs: seq<Spinbox>): (r: seq<Option<Status>>)
    ensures |r| == |sbs|
    ensures forall k :: 0 <= k < |sbs| ==> r[k] == ColourAt(sbs, k)
  {
    seq(|sbs|, k requires 0 <= k < |sbs| => ColourAt(sbs, k))
  }

  /** The second loop of `reset_widget_colours`: each spinbox of the list
      picks its colour from the values of the spinboxes it is linked to. */
  method UpdateColours(sbs: seq<Spinbox>, links: seq<Links>) returns (statuses: seq<Option<Status>>)
    requires |links| == |sbs|
    requires forall k :: 0 <= k < |sbs| ==> links[k].prev == (if k > 0 then Some(k - 1) else None)
    requires forall k :: 0 <= k < |sbs| ==> links[k].next == (if k < |sbs| - 1 then Some(k + 1) else None)
    ensures statuses == Colours(sbs)
  {
    statuses := [];
    var k := 0;
    while k < |sbs|
      invariant 0 <= k <= |sbs|
      invariant |statuses| == k
      invariant forall m :: 0 <= m < k ==> statuses[m] == ColourAt(sbs, m)
    {
      var prev := if links[k].prev.Some? then Some(sbs[links[k].prev.value].value) else None;
      var next := if links[k].next.Some? then Some(sbs[links[k].next.value].value) else None;
      statuses := statuses + [UpdateColour(sbs[k].value, sbs[k].isInFrame, prev, next)];
      k := k + 1;
    }
  }

  /** `reset_widget_colours`: rebuild the list from the checked rows, link
      it, and let every spinbox in it pick its colour from its linked
      neighbours. The spinboxes start unlinked here: `TrackColour` replaces
      every link a spinbox kept from an earlier call, whatever it was. */
  method ResetWidgetColours(es: seq<Entry>) returns (sbs: seq<Spinbox>, statuses: seq<Option<Status>>)
    ensures sbs == SpinboxList(es)
    ensures statuses == Colours(sbs)
  {
    sbs := SpinboxList(es);
    var links := TrackColour(|sbs|, seq(|sbs|, _ => Links(None, None)));
    statuses := UpdateColours(sbs, links);
  }

  /** The checked rows are each the right way round and each starts on the
      frame after the previous one ends. */
  predicate Contiguous(inc: seq<Entry>) {
    && (forall j :: 0 <= j < |inc| ==> inc[j].inFrame <= inc[j].outFrame)
    && (forall j :: 0 <= j < |inc| - 1 ==> inc[j].outFrame + 1 == inc[j + 1].inFrame)
  }

  /** When the checked rows are contiguous, every spinbox is Green. */
  lemma ContiguousRowsAllGreen(es: seq<Entry>)
    requires Contiguous(Filter(es, Included))
    ensures forall k :: 0 <= k < |SpinboxList(es)| ==> Colours(SpinboxList(es))[k] == Some(Green)
  {
    AllGreenAt(SpinboxList(es), Filter(es, Included));
  }

  lemma AllGreenAt(sbs: seq<Spinbox>, inc: seq<Entry>)
    requires Interleaves(sbs, inc) && Contiguous(inc)
    ensures forall k :: 0 <= k < |sbs| ==> ColourAt(sbs, k) == Some(Green)
  {
    forall k | 0 <= k < |sbs|
      ensures ColourAt(sbs, k) == Some(Green)
    {
      var j := k / 2;
      if k % 2 == 0 {
        InFrameGreenAt(sbs, inc, j);
      } else {
        OutFrameGreenAt(sbs, inc, j);
      }
    }
  }

  lemma InFrameGreenAt(sbs: seq<Spinbox>, inc: seq<Entry>, j: int)
    requires Interleaves(sbs, inc) && Contiguous(inc)
    requires 0 <= j < |inc|
    ensures ColourAt(sbs, 2 * j) == Some(Green)
  {
    var prev := if j > 0 then Some(inc[j - 1].outFrame) else None;
    if j > 0 {
      assert sbs[2 * j - 1] == sbs[2 * (j - 1) + 1];
    }
    assert ColourAt(sbs, 2 * j) == UpdateColour(inc[j].inFrame, true, prev, Some(inc[j].outFrame));
  }

  lemma OutFrameGreenAt(sbs: seq<Spinbox>, inc: seq<Entry>, j: int)
    requires Interleaves(sbs, inc) && Contiguous(inc)
    requires 0 <= j < |inc|
    ensures ColourAt(sbs, 2 * j + 1) == Some(Green)
  {
    var next := if j < |inc| - 1 then Some(inc[j + 1].inFrame) else None;
    if j < |inc| - 1 {
      assert sbs[2 * j + 2] == sbs[2 * (j + 1)];
    }
    assert ColourAt(sbs, 2 * j + 1) == UpdateColour(inc[j].outFrame, false, Some(inc[j].inFrame), next);
  }

  /** A checked row with an inverted range shows its in-frame Red. */
  lemma InvertedRowShowsRed(es: seq<Entry>, j: int)
    requires 0 <= j < |Filter(es, Included)|
    requires Filter(es, Included)[j].inFrame > Filter(es, Included)[j].outFrame
    ensures Colours(SpinboxList(es))[2 * j] == Some(Red)
  {
    var inc := Filter(es, Included);
    var sbs := SpinboxList(es);
    assert sbs[2 * j + 1] == Spinbox(inc[j].outFrame, false);
  }

  /** When every checked row is the right way round, a row's out-frame shows
      Red exactly when the second pass of `filter_cameras` drops that row. */
  lemma RedOutFrameIffDropped(es: seq<Entry>, j: int)
    requires forall i :: 0 <= i < |es| && es[i].included ==> es[i].inFrame <= es[i].outFrame
    requires 0 <= j < |Candidates(es)| && j < |Filter(es, Included)|
    ensures Colours(SpinboxList(es))[2 * j + 1] == Some(Red) <==> OverlapsNext(Candidates(es), j)
  {
    SameFilter(es);
    RedOutFrameAt(SpinboxList(es), Filter(es, Included), j);
  }

  lemma RedOutFrameAt(sbs: seq<Spinbox>, inc: seq<Entry>, j: int)
    requires Interleaves(sbs, inc)
    requires 0 <= j < |inc| && inc[j].inFrame <= inc[j].outFrame
    ensures ColourAt(sbs, 2 * j + 1) == Some(Red) <==> OverlapsNext(inc, j)
  {
    var next := if j < |inc| - 1 then Some(inc[j + 1].inFrame) else None;
    if j < |inc| - 1 {
      assert sbs[2 * j + 2] == sbs[2 * (j + 1)];
    }
    assert ColourAt(sbs, 2 * j + 1) == UpdateColour(inc[j].outFrame, false, Some(inc[j].inFrame), next);
  }

  lemma {:induction false} SameFilter(es: seq<Entry>)
    requires forall i :: 0 <= i < |es| && es[i].included ==> es[i].inFrame <= es[i].outFrame
    ensures Filter(es, Included) == Candidates(es)
  {
    if |es| > 0 {
      SameFilter(es[1..]);
    }
  }
}
