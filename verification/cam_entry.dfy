/** One row of the tool per scene camera (cam_entry.py `CameraEntry`) and
    the discovery of scene cameras it is built from
    (anim_cam_manager.py `get_cameras`, `set_camera_entries`). The widgets
    of a row are reduced to the values they hold. */
module CamEntry {
  import opened Wrappers
  import opened Seqs
  import opened PathNames
  import opened FrameSpinbox

  /** The four default cameras every scene has; no row is made for them. */
  const ReservedCameras: seq<string> := ["top", "front", "side", "persp"]

  /** The widgets of one row, in the order they are laid out. */
  datatype Widget = NameLabel | InFrameBox | OutFrameBox | IncludeBox

  /** A camera row: the shape's long name, the camera name and path read
      from it, the camera number, the two spinbox values and the include
      checkbox. */
  datatype Entry = Entry(
    fullName: string,
    name: string,
    path: string,
    number: nat,
    inFrame: int,
    outFrame: int,
    included: bool)

  /** Spinbox values always sit inside the spinbox range. */
  predicate InRange(e: Entry) {
    MinFrame <= e.inFrame <= MaxFrame && MinFrame <= e.outFrame <= MaxFrame
  }

  /** `set_default_widgets`: the row's widgets, label first and checkbox
      last. */
  function Widgets(e: Entry): (ws: seq<Widget>)
    ensures |ws| == 4
    ensures ws[0] == NameLabel && ws[3] == IncludeBox
    ensures ws[1] == InFrameBox && ws[2] == OutFrameBox
  {
    [NameLabel, InFrameBox, OutFrameBox, IncludeBox]
  }

  /** `set_def_frame_range`: with key times, the in-frame takes the first
      and the out-frame the last key time (each clamped by its spinbox);
      without keys both keep the spinbox's initial value. */
  function DefaultFrameRange(keyTimes: seq<int>): (r: (int, int))
    ensures MinFrame <= r.0 <= r.1 <= MaxFrame
    ensures |keyTimes| == 0 ==> r == (InitialFrame, InitialFrame)
    ensures forall i :: 0 <= i < |keyTimes| ==> r.0 <= SetValue(keyTimes[i]) <= r.1
    ensures |keyTimes| > 0 ==> exists i :: 0 <= i < |keyTimes| && r.0 == SetValue(keyTimes[i])
    ensures |keyTimes| > 0 ==> exists j :: 0 <= j < |keyTimes| && r.1 == SetValue(keyTimes[j])
  {
    if |keyTimes| == 0 then (InitialFrame, InitialFrame)
    else
      var lo := Min(keyTimes);
      var hi := Max(keyTimes);
      SetValueMonotonic(lo, hi);
      assert forall i :: 0 <= i < |keyTimes| ==> SetValue(lo) <= SetValue(keyTimes[i]) <= SetValue(hi) by {
        forall i | 0 <= i < |keyTimes|
          ensures SetValue(lo) <= SetValue(keyTimes[i]) <= SetValue(hi)
        {
          SetValueMonotonic(lo, keyTimes[i]);
          SetValueMonotonic(keyTimes[i], hi);
        }
      }
      (SetValue(lo), SetValue(hi))
  }

  /** `CameraEntry(camera_full_name)`: reads the name (failing without a
      parent piece), the path, the number (failing without digits), and the
      default range from the key times of the path; the row starts
      included. `keyTimesOf` stands for querying the scene's keyframes. */
  function NewEntry(fullName: string, keyTimesOf: string -> seq<int>): (r: Result<Entry, NameFailure>)
    ensures r.Ok? ==> r.value.included && InRange(r.value) && r.value.inFrame <= r.value.outFrame
    ensures r.Ok? ==> r.value.fullName == fullName && GetCameraName(fullName) == Ok(r.value.name)
    ensures r.Ok? ==> r.value.path == GetCameraPath(fullName)
    ensures r.Ok? ==> GetCameraNumber(r.value.name) == Ok(r.value.number)
    ensures r.Ok? ==> (r.value.inFrame, r.value.outFrame) == DefaultFrameRange(keyTimesOf(r.value.path))
    ensures r.Ok? && |keyTimesOf(r.value.path)| == 0 ==>
              r.value.inFrame == InitialFrame && r.value.outFrame == InitialFrame
    ensures GetCameraName(fullName).Err? ==> r == Err(NoParentPiece)
    ensures GetCameraName(fullName).Ok? ==>
              (r.Err? <==> GetCameraNumber(GetCameraName(fullName).value).Err?)
  {
    var name :- GetCameraName(fullName);
    var path := GetCameraPath(fullName);
    var number :- GetCameraNumber(name);
    var range := DefaultFrameRange(keyTimesOf(path));
    Ok(Entry(fullName, name, path, number, range.0, range.1, true))
  }

  /** `get_cameras`: the long names of the scene's camera shapes in the
      order the scene lists them, leaving out the four default cameras. A
      listed name without a parent piece makes the whole call fail. */
  function GetCameras(sceneCameras: seq<string>): (r: Result<seq<string>, NameFailure>)
    ensures r.Err? <==> exists i :: 0 <= i < |sceneCameras| && GetCameraName(sceneCameras[i]).Err?
    ensures r.Ok? ==> Subseq(r.value, sceneCameras)
    ensures r.Ok? ==> forall i :: 0 <= i < |r.value| ==>
              GetCameraName(r.value[i]).Ok? && GetCameraName(r.value[i]).value !in ReservedCameras
    ensures r.Ok? ==> forall i :: 0 <= i < |sceneCameras| ==>
              GetCameraName(sceneCameras[i]).value !in ReservedCameras ==> sceneCameras[i] in r.value
  {
    if |sceneCameras| == 0 then Ok([])
    else
      var name :- GetCameraName(sceneCameras[0]);
      var rest :- GetCameras(sceneCameras[1..]);
      assert sceneCameras == [sceneCameras[0]] + sceneCameras[1..];
      SubseqCons(sceneCameras[0], rest, sceneCameras[1..]);
      if name in ReservedCameras then Ok(rest) else Ok([sceneCameras[0]] + rest)
  }

  /** `set_camera_entries`: one row per non-default camera, in scene order,
      each the row `CameraEntry` builds for it; a name without a parent
      piece, or a kept camera whose name has no digit, makes the whole
      window fail. */
  function SetCameraEntries(sceneCameras: seq<string>, keyTimesOf: string -> seq<int>): (r: Result<seq<Entry>, NameFailure>)
    ensures r.Ok? ==> GetCameras(sceneCameras).Ok?
    ensures r.Ok? ==> |r.value| == |GetCameras(sceneCameras).value|
    ensures r.Ok? ==> forall i :: 0 <= i < |r.value| ==>
              r.value[i].fullName == GetCameras(sceneCameras).value[i] && r.value[i].included && InRange(r.value[i])
    ensures GetCameras(sceneCameras).Err? ==> r.Err?
    ensures r.Ok? <==>
              && GetCameras(sceneCameras).Ok?
              && forall i :: 0 <= i < |GetCameras(sceneCameras).value| ==>
                   NewEntry(GetCameras(sceneCameras).value[i], keyTimesOf).Ok?
    ensures r.Ok? ==> forall i :: 0 <= i < |r.value| ==>
              r.value[i] == NewEntry(GetCameras(sceneCameras).value[i], keyTimesOf).value
  {
    var names :- GetCameras(sceneCameras);
    MapAll(names, name => NewEntry(name, keyTimesOf))
  }
}
