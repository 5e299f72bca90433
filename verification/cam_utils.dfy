/** The Maya helpers of anim_cam_manager_utils.py as the host commands they
    issue. Queries the helpers make of the scene (keyable attributes, shapes
    under a transform, key times, evaluated values) are parameters. Attribute
    values are host-evaluated and left opaque: the type parameter `V`. */
module CamUtils {
  import opened Wrappers
  import opened Seqs

  /** One call into the host scene. */
  datatype HostCommand<V> =
    | SetKey(node: string, attr: string, frame: int, insert: bool)   // setKeyframe, value evaluated by the host
    | SetKeyValue(node: string, attr: string, frame: int, value: V)  // setKeyframe with an explicit value
    | CopyKey(node: string, start: int, end: int)                    // copyKey over [start, end], option 'keys'
    | PasteKey(node: string)                                         // pasteKey, option 'replace'
    | Duplicate(node: string)                                        // duplicate

  /** The commands a helper issued, and whether it stopped by raising. */
  datatype Run<V> = Run(commands: seq<HostCommand<V>>, failed: bool)

  /** Keys one keyable attribute per command at `frame`. */
  function KeyEach<V>(node: string, attrs: seq<string>, frame: int, insert: bool): (r: seq<HostCommand<V>>)
    ensures |r| == |attrs|
    ensures forall i :: 0 <= i < |r| ==> r[i] == SetKey(node, attrs[i], frame, insert)
  {
    if |attrs| == 0 then []
    else [SetKey(node, attrs[0], frame, insert)] + KeyEach(node, attrs[1..], frame, insert)
  }

  /** `set_keyframe_all_attr`: a key at `frame` with the given insert mode on
      every keyable attribute of the transform, then on every keyable
      attribute of its first shape. A transform without a shape fails after
      its own attributes are keyed. */
  function SetKeyframeAllAttr<V>(transform: string, shapes: seq<string>, keyable: string -> seq<string>,
                                 frame: int, insert: bool): (r: Run<V>)
    ensures r.failed <==> |shapes| == 0
    ensures |r.commands| == |keyable(transform)| + (if |shapes| == 0 then 0 else |keyable(shapes[0])|)
    ensures forall i :: 0 <= i < |r.commands| ==>
              r.commands[i].SetKey? && r.commands[i].frame == frame && r.commands[i].insert == insert
    ensures forall i :: 0 <= i < |keyable(transform)| ==>
              r.commands[i] == SetKey(transform, keyable(transform)[i], frame, insert)
    ensures |shapes| > 0 ==> forall i :: 0 <= i < |keyable(shapes[0])| ==>
              r.commands[|keyable(transform)| + i] == SetKey(shapes[0], keyable(shapes[0])[i], frame, insert)
  {
    var own: seq<HostCommand<V>> := KeyEach(transform, keyable(transform), frame, insert);
    if |shapes| == 0 then Run(own, true)
    else Run(own + KeyEach(shapes[0], keyable(shapes[0]), frame, insert), false)
  }

  // ------------------------------------------------------------ extension

  /** The frames `extend_keyframe` keys: `current+1 .. current+duration`,
      none when the duration is not positive. */
  function ExtensionFrames(current: int, duration: int): (r: seq<int>)
    ensures forall f :: f in r <==> current < f <= current + duration
    ensures |r| == if duration <= 0 then 0 else duration
  {
    Range(current + 1, current + duration + 1)
  }

  /** Every attribute keyed at one frame with the value it holds at the
      frame the extension starts from. */
  function HoldFrame<V>(node: string, attrs: seq<string>, frame: int, valueAt: string -> V): (r: seq<HostCommand<V>>)
    ensures |r| == |attrs|
    ensures forall i :: 0 <= i < |r| ==> r[i] == SetKeyValue(node, attrs[i], frame, valueAt(attrs[i]))
  {
    if |attrs| == 0 then []
    else [SetKeyValue(node, attrs[0], frame, valueAt(attrs[0]))] + HoldFrame(node, attrs[1..], frame, valueAt)
  }

  /** A key command on `node` that writes the value held at the start of
      the extension into an attribute of `attrs` at a frame in `[lo, hi)`. */
  ghost predicate IsHold<V>(c: HostCommand<V>, node: string, attrs: seq<string>, lo: int, hi: int, valueAt: string -> V) {
    c.SetKeyValue? && c.node == node && c.attr in attrs && lo <= c.frame < hi && c.value == valueAt(c.attr)
  }

  lemma HoldFrameWrites<V>(node: string, attrs: seq<string>, frame: int, valueAt: string -> V)
    ensures forall a :: a in attrs ==> Writes(HoldFrame(node, attrs, frame, valueAt), Key(node, a, frame))
  {
    var here := HoldFrame(node, attrs, frame, valueAt);
    forall a | a in attrs
      ensures Writes(here, Key(node, a, frame))
    {
      var i :| 0 <= i < |attrs| && attrs[i] == a;
      assert KeyOf(here[i]) == Key(node, a, frame);
    }
  }

  lemma MulStep(n: int, k: int)
    ensures n * k == k + (n - 1) * k
  {
  }

  /** Every attribute held at each frame of `[lo, hi)`, frame by frame. */
  function HoldRange<V>(node: string, attrs: seq<string>, lo: int, hi: int, valueAt: string -> V): (r: seq<HostCommand<V>>)
    ensures |r| == if hi <= lo then 0 else (hi - lo) * |attrs|
    ensures forall i :: 0 <= i < |r| ==> IsHold(r[i], node, attrs, lo, hi, valueAt)
    ensures forall f, a :: lo <= f < hi && a in attrs ==> Writes(r, Key(node, a, f))
    decreases hi - lo
  {
    if hi <= lo then []
    else
      var here := HoldFrame(node, attrs, lo, valueAt);
      var rest := HoldRange(node, attrs, lo + 1, hi, valueAt);
      HoldFrameWrites(node, attrs, lo, valueAt);
      WritesAppend(here, rest);
      assert forall i :: 0 <= i < |here| ==> IsHold(here[i], node, attrs, lo, hi, valueAt);
      assert forall i :: 0 <= i < |rest| ==> IsHold(rest[i], node, attrs, lo, hi, valueAt);
      MulStep(hi - lo, |attrs|);
      here + rest
  }

  /** `extend_keyframe(node, current, duration)`: every keyable attribute of
      the transform is keyed at each frame after `current`, up to
      `current + duration`, with the value it holds at `current`.
      `valueAt(a)` stands for `getAttr(node.a, time=current)`. */
  function ExtendKeyframe<V>(node: string, keyable: string -> seq<string>, current: int, duration: int,
                             valueAt: string -> V): (r: seq<HostCommand<V>>)
    ensures duration <= 0 ==> r == []
    ensures |r| == |ExtensionFrames(current, duration)| * |keyable(node)|
    ensures forall i :: 0 <= i < |r| ==> IsHold(r[i], node, keyable(node), current + 1, current + duration + 1, valueAt)
    ensures forall f, a :: current < f <= current + duration && a in keyable(node) ==> Writes(r, Key(node, a, f))
  {
    HoldRange(node, keyable(node), current + 1, current + duration + 1, valueAt)
  }

  // --------------------------------------------------- keys on the scene

  /** A key slot: an attribute of a node at a frame. */
  datatype Key = Key(node: string, attr: string, frame: int)

  /** Explicit key values, as far as the model sees them. */
  type Curves<V> = map<Key, V>

  function KeyOf<V>(c: HostCommand<V>): Key
    requires c.SetKeyValue?
  {
    Key(c.node, c.attr, c.frame)
  }

  /** Some command of the list writes an explicit value into slot `k`. */
  predicate Writes<V>(cmds: seq<HostCommand<V>>, k: Key) {
    exists i :: 0 <= i < |cmds| && cmds[i].SetKeyValue? && KeyOf(cmds[i]) == k
  }

  lemma WritesAppend<V>(a: seq<HostCommand<V>>, b: seq<HostCommand<V>>)
    ensures forall k :: Writes(a + b, k) <==> Writes(a, k) || Writes(b, k)
  {
    forall k
      ensures Writes(a + b, k) <==> Writes(a, k) || Writes(b, k)
    {
      if Writes(a + b, k) {
        var i :| 0 <= i < |a + b| && (a + b)[i].SetKeyValue? && KeyOf((a + b)[i]) == k;
        if i >= |a| {
          assert b[i - |a|] == (a + b)[i];
        }
      }
      if Writes(a, k) {
        var i :| 0 <= i < |a| && a[i].SetKeyValue? && KeyOf(a[i]) == k;
        assert (a + b)[i] == a[i];
      }
      if Writes(b, k) {
        var i :| 0 <= i < |b| && b[i].SetKeyValue? && KeyOf(b[i]) == k;
        assert (a + b)[|a| + i] == b[i];
      }
    }
  }

  /** The effect of explicit-value keys on the curves; other commands are
      host-evaluated and not followed here. */
  function Apply<V>(curves: Curves<V>, cmds: seq<HostCommand<V>>): Curves<V>
    decreases |cmds|
  {
    if |cmds| == 0 then curves
    else
      var c := cmds[0];
      var next := if c.SetKeyValue? then curves[KeyOf(c) := c.value] else curves;
      Apply(next, cmds[1..])
  }

  /** Commands that each write, into an attribute, the value that attribute
      is assigned: the order they run in does not matter. */
  lemma {:induction false} ApplyUniform<V>(curves: Curves<V>, cmds: seq<HostCommand<V>>, valueAt: string -> V)
    requires forall i :: 0 <= i < |cmds| ==> cmds[i].SetKeyValue? && cmds[i].value == valueAt(cmds[i].attr)
    ensures forall k :: k in Apply(curves, cmds) <==> k in curves || Writes(cmds, k)
    ensures forall k :: Writes(cmds, k) ==> Apply(curves, cmds)[k] == valueAt(k.attr)
    ensures forall k :: k in curves && !Writes(cmds, k) ==> Apply(curves, cmds)[k] == curves[k]
    decreases |cmds|
  {
    if |cmds| > 0 {
      var c := cmds[0];
      var next := curves[KeyOf(c) := c.value];
      ApplyUniform(next, cmds[1..], valueAt);
      assert cmds == [c] + cmds[1..];
      WritesAppend([c], cmds[1..]);
      forall k
        ensures Writes([c], k) <==> k == KeyOf(c)
      {
        if k == KeyOf(c) {
          assert [c][0] == c;
        }
      }
    }
  }

  /** Slot `k` is one `extend_keyframe(node, current, duration)` writes. */
  predicate Extended(k: Key, node: string, attrs: seq<string>, current: int, duration: int) {
    k.node == node && k.attr in attrs && current < k.frame <= current + duration
  }

  /** The effect of `extend_keyframe`: the slots of the keyable attributes at
      the frames `current+1 .. current+duration` hold the values read at
      `current`; every other slot is unchanged, and no other slot appears. */
  lemma ExtendKeyframeEffect<V>(curves: Curves<V>, node: string, keyable: string -> seq<string>,
                                current: int, duration: int, valueAt: string -> V)
    ensures var after := Apply(curves, ExtendKeyframe(node, keyable, current, duration, valueAt));
      && (forall k: Key :: k in after <==> k in curves || Extended(k, node, keyable(node), current, duration))
      && (forall k: Key :: Extended(k, node, keyable(node), current, duration) ==> after[k] == valueAt(k.attr))
      && (forall k: Key :: k in curves && !Extended(k, node, keyable(node), current, duration) ==>
            after[k] == curves[k])
  {
    var cmds := ExtendKeyframe(node, keyable, current, duration, valueAt);
    ApplyUniform(curves, cmds, valueAt);
    forall k: Key
      ensures Writes(cmds, k) <==> Extended(k, node, keyable(node), current, duration)
    {
      if Writes(cmds, k) {
        var i :| 0 <= i < |cmds| && cmds[i].SetKeyValue? && KeyOf(cmds[i]) == k;
      }
    }
  }

  // ----------------------------------------------------------- copy/paste

  /** `copy_keyframes`: when the source has keys, copy its keys over
      `[start, end]` and paste them onto the target replacing what is
      there; otherwise nothing. `sourceKeyTimes` stands for querying the
      source's keyframes. */
  function CopyKeyframes<V>(source: string, sourceKeyTimes: seq<int>, target: string, start: int, end: int): (r: seq<HostCommand<V>>)
    ensures |sourceKeyTimes| == 0 <==> r == []
    ensures |sourceKeyTimes| > 0 ==> r == [CopyKey(source, start, end), PasteKey(target)]
  {
    if |sourceKeyTimes| == 0 then [] else [CopyKey(source, start, end), PasteKey(target)]
  }

  /** `duplicate_camera`: duplicate the node, then copy its keys over the
      span from its first to its last key time onto the duplicate (named
      `duplicateName` by the host). */
  function DuplicateCamera<V>(source: string, sourceKeyTimes: seq<int>, duplicateName: string): (r: seq<HostCommand<V>>)
    ensures |r| >= 1 && r[0] == Duplicate(source)
    ensures |sourceKeyTimes| == 0 <==> |r| == 1
    ensures |sourceKeyTimes| > 0 ==> |r| == 3 && r[1].CopyKey? && r[1].node == source && r[2] == PasteKey(duplicateName)
    ensures |sourceKeyTimes| > 0 ==> r[1].start in sourceKeyTimes && r[1].end in sourceKeyTimes
    ensures |sourceKeyTimes| > 0 ==> forall i :: 0 <= i < |sourceKeyTimes| ==> r[1].start <= sourceKeyTimes[i] <= r[1].end
  {
    if |sourceKeyTimes| == 0 then [Duplicate(source)]
    else [Duplicate(source)] + CopyKeyframes(source, sourceKeyTimes, duplicateName, Min(sourceKeyTimes), Max(sourceKeyTimes))
  }
}
