# Uber camera manager — a Dafny model

The tool being modelled stitches the shot cameras of a Maya scene into one "uber camera". Its window lists one row per scene camera. A row holds the camera name, an in-frame and an out-frame spinbox, and an include checkbox. A build does three things:

- it chooses the rows that take part (`filter_cameras`);
- it copies each chosen row's keys onto a new camera (`create_uber_cam`, `copy_cam_keyframes`). The copy starts at the row's in-frame. It ends at the row's out-frame, or, when every frame is baked and another row follows, at the next row's in-frame. With a single chosen row the build instead duplicates that camera with its whole key span and renames it;
- it warns about rows it skipped and about gaps between consecutive rows.

A few behaviours of the code are easy to miss, and the model keeps them:

- Rows are taken in scene order; nothing sorts them by camera number.
- Only the gap warning is deduplicated; the filter's warnings are appended once per offending row.
- A build with no surviving row still creates an empty camera.
- A build with one surviving row ignores that row's in and out frames: the duplicate keeps every key of the source camera. It neither shows nor clears the warnings, and leaves the window open.

Each spinbox colours itself from the values of its neighbours in the list of checked rows (`track_colour`, `reset_widget_colours`, `FrameSpinbox.update_colour`).

The model is purely functional and split into seven modules:

- `Wrappers` (wrappers.dfy): `Option` and `Result`, plus `MapAll`. `MapAll` is a traversal that stops at the first failure, the way a Python loop stops at the first exception.
- `Seqs` (seqs.dfy): order-preserving subsequences, `Filter`, `Min`/`Max`, and Python's `range`.
- `PathNames` (path_names.dfy): Python's `str.split('|')`, and how the camera name, path and number are read from a long DAG name. The two exceptions the code can raise become `NameFailure` values.
- `FrameSpinbox` (frame_spinbox.dfy): the spinbox range, the clamping done by `setValue`, and the colour decision table as a function returning `Option<Status>`.
- `CamEntry` (cam_entry.dfy): a camera row, its default frame range, and the discovery of scene cameras.
- `CamUtils` (cam_utils.dfy): the Maya helpers, modelled as the host commands they issue. Scene queries are parameters, and attribute values are an opaque type `V`. A small key store (`Curves`) gives the explicit-value keys of `extend_keyframe` their meaning.
- `AnimCamManager` (anim_cam_manager.dfy): the two filter passes, the key plan of one row (a list of `Step`s), the build, and the spinbox list with its links and colours.

## Model

| member | source | states |
|---|---|---|
| PathNames.Split | anim_cam_manager_utils.py:66 | `str.split`: always at least one piece, exactly one when the separator is absent, and no piece contains the separator |
| PathNames.JoinSplit | cam_entry.py:66 | joining the pieces of a split with the separator gives back the original string |
| PathNames.SplitJoin | anim_cam_manager_utils.py:66 | splitting a join of separator-free pieces gives back the pieces |
| PathNames.GetCameraName | anim_cam_manager_utils.py:63-68 | the name fails (the `[-2]` IndexError) exactly when the long name has no separator; a name read never contains the separator |
| PathNames.CameraNameOfPieces | anim_cam_manager_utils.py:66 | for a long name joined from separator-free pieces, the name is the piece before the last |
| PathNames.GetCameraPath | cam_entry.py:63-73 | the path never contains the separator, and the path followed by the last piece is the long name with every separator removed |
| PathNames.CameraPathOfPieces | cam_entry.py:66-71 | for a long name joined from separator-free pieces, the path is all the pieces but the last, glued without separators |
| PathNames.TopLevelCameraPath | cam_entry.py:63-73 | for the top-level long name made of a separator, `cam`, a separator and `shape`, the path and the name are both `cam` |
| PathNames.GetCameraNumber | cam_entry.py:49-60 | fails (`int('')`) exactly when the name has no digit character |
| PathNames.DecimalRoundTrip | cam_entry.py:58 | reading the decimal spelling of `n` gives `n` back |
| PathNames.CameraNumberOfSuffix | cam_entry.py:49-60 | a digit-free prefix followed by the spelling of `n` has number `n` |
| PathNames.DigitsFilter | cam_entry.py:52-56 | the collected characters are exactly the digit characters of the name, in order |
| PathNames.CameraNumberOfDigits | cam_entry.py:49-60 | the call succeeds iff the name has a digit, and the number is the name's digit characters read in order as one decimal numeral |
| PathNames.TwoDigitGroups | cam_entry.py:54-58 | digits are gathered across the whole name, so two separated digits read as one two-digit number |
| PathNames.CameraNumberJoinsDigitGroups | cam_entry.py:54-58 | `"sh1_cam2"` has number 12 |
| PathNames.CameraNumberDropsLeadingZeros | cam_entry.py:58 | `"cam07"` has number 7 |
| FrameSpinbox.SetValue | frame_spinbox.py:7-8 | a spinbox value always lies in [0, 10000]; values inside are kept and values outside land on the nearer end |
| FrameSpinbox.UpdateColour | frame_spinbox.py:21-58 | the colour decision table: in-frame Red iff past the next value; otherwise Green iff directly after the previous value (or no previous); no change without a next. Out-frame Red when it reaches the next value, before the previous value is looked at; otherwise Red iff below the previous value; Green iff directly before the next value (or no next); no change without a previous |
| FrameSpinbox.EqualNeighbourAsymmetry | frame_spinbox.py:21-58 | an in-frame equal to its next value is accepted while an out-frame equal to its next value is Red |
| CamEntry.DefaultFrameRange | cam_entry.py:76-83 | with key times, in and out are the clamped minimum and maximum key time, so in <= out and every key time, once clamped into [0, 10000], lies between them; without keys both stay at 1001 |
| CamEntry.NewEntry | cam_entry.py:9-33 | a new row is included, its range is in bounds and the right way round, and it holds the name, path and number read from its long name. Its in and out frames are the default range of the key times found on its camera path. It fails exactly when the name or number cannot be read |
| CamEntry.Widgets | cam_entry.py:86-95 | a row lays out four widgets: the name label, the in-frame spinbox, the out-frame spinbox and the include checkbox, in that order |
| CamEntry.GetCameras | anim_cam_manager.py:154-167 | the result is an order-preserving subsequence of the scene's cameras: every non-default camera is kept and no default camera is kept; any unreadable name makes the call fail |
| CamEntry.SetCameraEntries | anim_cam_manager.py:142-151 | row i is the row `CameraEntry` builds for the i-th camera `get_cameras` returns; the call succeeds iff `get_cameras` does and every returned camera's row can be built, so a kept camera whose name has no digit makes it fail |
| Wrappers.MapAll | anim_cam_manager.py:148-149 | succeeds iff every element succeeds, keeping order and length; a failure carries the error of the first failing element |
| Seqs.Range | anim_cam_manager.py:254 | `range(lo, hi)`: the integers `lo <= f < hi`, in increasing order |
| CamUtils.SetKeyframeAllAttr | anim_cam_manager_utils.py:26-40 | keys every keyable attribute of the transform, then of its first shape, each at the given frame with the given insert flag; without a shape it fails after keying the transform |
| CamUtils.ExtensionFrames | anim_cam_manager_utils.py:9 | the extension frames are exactly `current+1 .. current+duration`, and there are none when `duration <= 0` |
| CamUtils.ExtendKeyframe | anim_cam_manager_utils.py:4-12 | every command keys a keyable attribute of the node, inside the extension frames, with the value read at `current`; every such attribute and frame is keyed; nothing is keyed when `duration <= 0` |
| CamUtils.ExtendKeyframeEffect | anim_cam_manager_utils.py:9-12 | after the extension, the keyable attributes at the extension frames hold their values from `current`; every other key is unchanged and no other key appears |
| CamUtils.ApplyUniform | anim_cam_manager_utils.py:10-12 | explicit-value keys that each write an attribute's own value set exactly the slots they name, to that value, and leave all other slots alone |
| CamUtils.CopyKeyframes | anim_cam_manager_utils.py:48-54 | issues nothing iff the source has no keys; otherwise copies over `[start, end]` and pastes onto the target |
| CamUtils.DuplicateCamera | anim_cam_manager_utils.py:15-23 | duplicates first; copies keys only when the source has some, over a range whose ends are source key times and which covers every key time |
| AnimCamManager.FirstPass | anim_cam_manager.py:176-182 | keeps exactly the checked rows with in <= out, in order, and warns once per checked inverted row, in row order |
| AnimCamManager.SecondPass | anim_cam_manager.py:185-194 | keeps the candidates that do not overlap their follower in the first-pass list and warns once per candidate that does, in order; kept plus warned is every candidate; the last candidate is kept |
| AnimCamManager.FilterCameras | anim_cam_manager.py:170-196 | the result is an order-preserving subsequence of the rows, all checked with in <= out. The warnings are the inverted-range warnings followed by the overlap warnings, with neither kind deduplicated. No rows gives nothing and no warnings |
| AnimCamManager.LastCandidateKept | anim_cam_manager.py:188-194 | the last first-pass candidate always survives |
| AnimCamManager.DroppedIffOverlapsFollower | anim_cam_manager.py:188-194 | a candidate is dropped iff it is not last and ends at or after the in-frame of its follower in the first-pass list |
| AnimCamManager.SurvivorsMayOverlap | anim_cam_manager.py:188-194 | survivors are not pairwise free of overlap: rows (1,30), (40,50), (20,60) keep the first and last, which overlap, and warn about the middle one |
| AnimCamManager.CopyCamKeyframes | anim_cam_manager.py:237-267 | the plan duplicates first and deletes the duplicate last; before the delete comes a single copy from the in-frame to the next row's in-frame (baked with a successor) or to the out-frame; the key at 0 is the only non-insert key; both ends of the row are keyed right after it, before any hold, and the only hold starts at the out-frame |
| AnimCamManager.KeyPlanInserts | anim_cam_manager.py:244-255 | a key is inserted at frame f iff f is the in-frame or the out-frame, or (baked) in-frame <= f < out-frame |
| AnimCamManager.KeyPlanHolds | anim_cam_manager.py:256-258 | a frame is held iff the build is baked, a successor exists, and out-frame < f <= successor's in-frame |
| AnimCamManager.CopyCoversWrittenKeys | anim_cam_manager.py:244-264 | every inserted or held frame lies in the copied range iff the copy does not stop before the out-frame, that is, unless a baked successor starts before this row ends |
| AnimCamManager.ResetKeyNotCopied | anim_cam_manager.py:242-264 | the non-insert key at frame 0 lies outside the copied range whenever the row starts after frame 0 |
| AnimCamManager.GapWarnings | anim_cam_manager.py:214-224 | the gap warning is appended once, iff some consecutive pair of survivors does not join frame to frame and it is not already in the list |
| AnimCamManager.BuildFrom | anim_cam_manager.py:199-234 | one survivor: duplicate and rename to `UberCam`, with no plans, nothing shown, the warnings left pending and the window left open. Otherwise (zero survivors included): create a camera under the requested name, plan every survivor with its successor, show the warnings plus the gap warning, clear them and close the window |
| AnimCamManager.FilterWarningsAreNotGapWarnings | anim_cam_manager.py:180-192 | no filter warning is the gap warning |
| AnimCamManager.GapWarningAtMostOnce | anim_cam_manager.py:219-224 | with no gap warning pending, a created camera shows the gap warning exactly once if some survivor pair has a gap, and never otherwise |
| AnimCamManager.NoSurvivorsStillCreates | anim_cam_manager.py:206-214 | with no candidate rows, a camera is still created under the requested name, with nothing to copy |
| AnimCamManager.CreateUberCam | anim_cam_manager.py:199-234 | after `filter_cameras`, every camera the build duplicates, whether renamed or planned, is a checked row the right way round |
| AnimCamManager.GapBetweenTwoRows | anim_cam_manager.py:213-232 | two baked rows with a gap: the first is planned with the second as successor, the second with none, and the gap warning follows the pending warnings |
| AnimCamManager.GapScenario | anim_cam_manager.py:237-261 | rows (1,10) and (15,20), baked: the first row holds frames 11..15 and copies over [1, 15] |
| AnimCamManager.RowSpinboxesInThenOut | cam_entry.py:86-95 | the spinboxes among a row's widgets are its in-frame and then its out-frame |
| AnimCamManager.SpinboxList | anim_cam_manager.py:107-118 | the list holds two spinboxes per checked row, in row order, in-frame at position 2j and out-frame at 2j+1 |
| AnimCamManager.TrackColour | anim_cam_manager.py:126-139 | spinbox k is linked to k-1 when k > 0 and to k+1 when k < n-1, and to nothing else; a single spinbox gets no links |
| AnimCamManager.UpdateColours | anim_cam_manager.py:122-123 | reading the neighbours through the links gives every spinbox the colour of its list neighbours |
| AnimCamManager.ResetWidgetColours | anim_cam_manager.py:107-123 | each spinbox of the checked rows gets the decision-table colour of its own value and its list neighbours |
| AnimCamManager.ContiguousRowsAllGreen | anim_cam_manager.py:107-139 | when the checked rows are each the right way round and each starts on the frame after the previous one ends, every spinbox is Green |
| AnimCamManager.InvertedRowShowsRed | anim_cam_manager.py:107-139 | a checked row with in > out shows its in-frame Red |
| AnimCamManager.RedOutFrameIffDropped | anim_cam_manager.py:188-194 | when every checked row is the right way round, a row's out-frame is Red iff the second filter pass drops that row |

## Left out

- Qt: widget construction, layouts, signals, stylesheet strings, the greying in `set_widgets_state`, `refresh_window` and the warning dialog. Colours are a `Status`; the dialog is the `shown` list of a build.
- run.py: path set-up and script reloading only.
- Maya `cmds`. The helpers become lists of host commands. Scene queries (`ls`, `listAttr`, `listRelatives`, `keyframe`, `getAttr`) are parameters. Only explicit-value keys (`extend_keyframe`) are given an effect on a key store. Interpolated keys, `copyKey`/`pasteKey` with option `replace`, `delete`, `rename` and `camera` are recorded but not interpreted.
- The build's key plans are `Step` lists. They are not expanded into the host commands of each helper, because the duplicate's name and key times come from the host.
- Key times are integers; Maya returns floats, and the spinboxes hold integers.
- `str.isdigit` is modelled for the ASCII digits only.
- `listAttr` returning `None` for a node without keyable attributes: the source then raises `TypeError` when it loops over the result (anim_cam_manager_utils.py:10 and :32). The model takes the attribute list as a plain list, so this failure is not modelled.
- Helper failures during a build are not modelled. In the source, an exception raised inside the loop of `create_uber_cam` ends the build: for example, `listRelatives(...)[0]` on a node without a shape, or the `TypeError` above. The scratch duplicate is then never deleted, the warnings are neither shown nor cleared, and the window stays open. In the model every key plan ends with `DeleteScratch` and every build with several survivors or none closes the window. `CamUtils.SetKeyframeAllAttr` does model the missing-shape failure of a single call.
- `QSpinBox.setValue` is taken to clamp into the range [0, 10000].
- CamUtils.ExtendKeyframe: the value read at `current_time` is taken as a fixed function of the attribute, while the source reads it again for every extension frame. In general a new key after an unkeyed `current_time` re-interpolates the segment that holds it and changes that value. In the build it cannot: `copy_cam_keyframes` keys every keyable transform attribute at the out-frame before it extends from there (anim_cam_manager.py:249 and :258), and `AnimCamManager.CopyCamKeyframes` states that ordering.
- CamUtils.CopyKeyframes: states only which commands are issued; what a paste with option `replace` does to the target's curves is host behaviour.
- AnimCamManager.CreateUberCam: its own contract states only which rows it copies from; what it plans, shows and leaves pending is stated by `BuildFrom`, which it applies to `FilterCameras`. The order between copying a row and appending the gap warning is not modelled, since neither depends on the other.
