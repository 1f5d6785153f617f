/**
  The annotator window (`ImageViewer` in imageviewer.cpp) reduced to the
  state its keypoint actions read and write: the keypoint list, the text of
  the export area, the current file name, the hint panel and the overlay.
  Whether an image file can be read and whether the export file can be
  opened are outside the model and come in as parameters.
 */
module Session {
  import opened Options
  import opened Strings
  import opened Keypoints
  import opened ExportFormat
  import opened Overlay
  import opened Hint
  import opened NextFile
  import opened Keys

  /** What `exportData` writes: the target path and the bytes written to it. */
  datatype Saved = Saved(path: string, contents: string)

  /**
    What `updateVisualize` computes from the entries: the hint panel, the
    overlay, and the export text when there are exactly thirteen entries;
    otherwise the text area keeps `oldText`.
   */
  method Visualize(kps: seq<Keypoint>, oldText: string) returns (hint: string, overlay: Marks, text: string)
    ensures hint == HintText(|kps|)
    ensures overlay == MarksOf(kps)
    ensures text == if |kps| == |JointNames| then ExportText(kps) else oldText
  {
    hint := BuildHint(|kps|);
    var pts := CollectPoints(kps);
    var segs := PaintWireFrame(kps);
    overlay := Marks(pts, segs);
    text := oldText;
    if |kps| == |JointNames| {
      text := BuildExportText(kps);
    }
  }

  class ImageViewer {
    var keypoints: seq<Keypoint>
    /** The text area; it holds the export text once thirteen keypoints are in. */
    var text: string
    var currentFileName: string
    /** The text of the hint label. */
    var hint: string
    /** What is drawn over the image. */
    var overlay: Marks

    /**
      The overlay always shows the current entries, and with exactly thirteen
      entries the text area holds their export text.
     */
    predicate Valid()
      reads this
    {
      && overlay == MarksOf(keypoints)
      && (|keypoints| == |JointNames| ==> text == ExportText(keypoints))
    }

    /** A fresh window: no image, no entries, every joint name black. */
    constructor ()
      ensures Valid()
      ensures keypoints == [] && text == "" && currentFileName == ""
      ensures hint == HintText(|keypoints|) && overlay == Marks([], [])
    {
      var none: seq<Keypoint> := [];
      var h := BuildHint(|none|);
      NoSegmentsBeforeThirdEntry(none);
      keypoints := none;
      text := "";
      currentFileName := "";
      hint := h;
      overlay := Marks([], []);
    }

    /** `updateVisualize`, storing what `Visualize` computes. */
    method UpdateVisualize()
      modifies this
      ensures keypoints == old(keypoints) && currentFileName == old(currentFileName)
      ensures hint == HintText(|keypoints|)
      ensures overlay == MarksOf(keypoints)
      ensures text == if |keypoints| == |JointNames| then ExportText(keypoints) else old(text)
      ensures Valid()
    {
      hint, overlay, text := Visualize(keypoints, text);
    }

    /** `imageClicked`: the click position becomes the next entry. */
    method ImageClicked(x: int, y: int)
      modifies this
      ensures keypoints == old(keypoints) + [Keypoint(x, y)]
      ensures currentFileName == old(currentFileName)
      ensures hint == HintText(|keypoints|)
      ensures text == if |keypoints| == |JointNames| then ExportText(keypoints) else old(text)
      ensures Valid()
    {
      keypoints := keypoints + [Keypoint(x, y)];
      UpdateVisualize();
    }

    /** `skipKeypoint`: the skip sentinel becomes the next entry. */
    method SkipKeypoint()
      modifies this
      ensures keypoints == old(keypoints) + [Skipped]
      ensures currentFileName == old(currentFileName)
      ensures hint == HintText(|keypoints|)
      ensures text == if |keypoints| == |JointNames| then ExportText(keypoints) else old(text)
      ensures Valid()
    {
      keypoints := keypoints + [Keypoint(-1, -1)];
      UpdateVisualize();
    }

    /** `undoData`: drops the last entry if there is one, and redraws in any case. */
    method UndoData()
      modifies this
      ensures keypoints == if |old(keypoints)| == 0 then [] else old(keypoints)[..|old(keypoints)| - 1]
      ensures currentFileName == old(currentFileName)
      ensures hint == HintText(|keypoints|)
      ensures text == if |keypoints| == |JointNames| then ExportText(keypoints) else old(text)
      ensures Valid()
    {
      if |keypoints| != 0 {
        keypoints := keypoints[..|keypoints| - 1];
      }
      UpdateVisualize();
    }

    /** `resetData`: clears the text area and the entries, then redraws. */
    method ResetData()
      modifies this
      ensures keypoints == [] && text == ""
      ensures currentFileName == old(currentFileName)
      ensures hint == HintText(0) && overlay == Marks([], [])
      ensures Valid()
    {
      text := "";
      keypoints := [];
      UpdateVisualize();
    }

    /**
      The keypoint part of `setImage`: the new image is shown without marks,
      and the entries and the text area are cleared. The hint panel is not
      refreshed.
     */
    method SetImage()
      modifies this
      ensures keypoints == [] && text == "" && overlay == Marks([], [])
      ensures currentFileName == old(currentFileName) && hint == old(hint)
      ensures Valid()
    {
      overlay := Marks([], []);
      keypoints := [];
      text := "";
    }

    /**
      `loadFile`: the name is recorded as the current file name before the
      image is read, so it stays recorded when the read fails; only a
      successful read replaces the image.
     */
    method LoadFile(fileName: string, readable: bool) returns (ok: bool)
      modifies this
      ensures ok == readable
      ensures currentFileName == fileName && hint == old(hint)
      ensures readable ==> keypoints == [] && text == "" && overlay == Marks([], [])
      ensures !readable ==> keypoints == old(keypoints) && text == old(text) && overlay == old(overlay)
      ensures old(Valid()) ==> Valid()
    {
      currentFileName := fileName;
      if !readable {
        return false;
      }
      SetImage();
      ok := true;
    }

    /**
      `exportData`: the text area, whatever it holds, is written to the path
      derived from the current file name; `None` when that file cannot be
      opened. Nothing of the window changes.
     */
    method ExportData(canOpen: bool) returns (out: Option<Saved>)
      ensures out == if canOpen then Some(Saved(ExportPath(currentFileName), text)) else None
      ensures out.Some? && Valid() && |keypoints| == |JointNames| ==> DecodeExport(out.value.contents) == Some(keypoints)
      ensures out.Some? ==> !Occurs("jpeg", out.value.path) && !Occurs("jpg", out.value.path) && !Occurs("png", out.value.path)
    {
      if !canOpen {
        return None;
      }
      var path := ExportPath(currentFileName);
      ExportPathHasNoImageExtension(currentFileName);
      if Valid() && |keypoints| == |JointNames| {
        DecodeExportText(keypoints);
      }
      out := Some(Saved(path, text));
    }

    /**
      `nextFileOpen`: loads the next file of the numbered series when the
      current name has one, and does nothing otherwise.
     */
    method NextFileOpen(readable: bool)
      modifies this
      ensures NextFileName(old(currentFileName)).None? ==>
        && keypoints == old(keypoints) && text == old(text) && overlay == old(overlay)
        && currentFileName == old(currentFileName) && hint == old(hint)
      ensures NextFileName(old(currentFileName)).Some? ==>
        && currentFileName == NextFileName(old(currentFileName)).value && hint == old(hint)
        && (readable ==> keypoints == [] && text == "" && overlay == Marks([], []))
        && (!readable ==> keypoints == old(keypoints) && text == old(text) && overlay == old(overlay))
      ensures old(Valid()) ==> Valid()
    {
      var next := NextFileName(currentFileName);
      if next.None? {
        return;
      }
      var _ := LoadFile(next.value, readable);
    }

    /**
      `keyPressEvent`: dispatches on the low byte of the key code; the
      result is what an export wrote, if the key was 'E'.
     */
    method KeyPress(code: int, readable: bool, canOpen: bool) returns (out: Option<Saved>)
      modifies this
      ensures KeyCommand(code) != Export ==> out == None
      ensures KeyCommand(code) == Export ==>
        out == (if canOpen then Some(Saved(ExportPath(currentFileName), text)) else None)
      ensures KeyCommand(code) == Reset ==>
        && keypoints == [] && text == "" && overlay == Marks([], [])
        && currentFileName == old(currentFileName) && hint == HintText(0)
      ensures KeyCommand(code) == Skip ==>
        && keypoints == old(keypoints) + [Skipped]
        && currentFileName == old(currentFileName) && hint == HintText(|keypoints|)
        && text == (if |keypoints| == |JointNames| then ExportText(keypoints) else old(text))
      ensures KeyCommand(code) == Undo ==>
        && keypoints == (if |old(keypoints)| == 0 then [] else old(keypoints)[..|old(keypoints)| - 1])
        && currentFileName == old(currentFileName) && hint == HintText(|keypoints|)
        && text == (if |keypoints| == |JointNames| then ExportText(keypoints) else old(text))
      ensures KeyCommand(code) == Next && NextFileName(old(currentFileName)).None? ==>
        && keypoints == old(keypoints) && text == old(text) && overlay == old(overlay)
        && currentFileName == old(currentFileName) && hint == old(hint)
      ensures KeyCommand(code) == Next && NextFileName(old(currentFileName)).Some? ==>
        && currentFileName == NextFileName(old(currentFileName)).value && hint == old(hint)
        && (readable ==> keypoints == [] && text == "" && overlay == Marks([], []))
        && (!readable ==> keypoints == old(keypoints) && text == old(text) && overlay == old(overlay))
      ensures KeyCommand(code) in {Export, Ignore} ==>
        && keypoints == old(keypoints) && text == old(text) && overlay == old(overlay)
        && currentFileName == old(currentFileName) && hint == old(hint)
      ensures old(Valid()) ==> Valid()
    {
      out := None;
      match KeyCommand(code)
      case Reset => ResetData();
      case Skip => SkipKeypoint();
      case Export => out := ExportData(canOpen);
      case Next => NextFileOpen(readable);
      case Undo => UndoData();
      case Ignore =>
    }

    // -------------------------------------------------------------------
    // Sequences of actions
    // -------------------------------------------------------------------

    /**
      A click followed by Undo leaves the entries and the overlay as they
      were. The text is not restored when the click made the thirteenth
      entry: it then holds the export of the thirteen entries including the
      click.
     */
    method ClickThenUndo(x: int, y: int)
      modifies this
      ensures keypoints == old(keypoints) && currentFileName == old(currentFileName)
      ensures hint == HintText(|keypoints|)
      ensures old(Valid()) ==> overlay == old(overlay)
      ensures text ==
        if |keypoints| == |JointNames| then ExportText(keypoints)
        else if |keypoints| + 1 == |JointNames| then ExportText(keypoints + [Keypoint(x, y)])
        else old(text)
      ensures Valid()
    {
      ImageClicked(x, y);
      assert keypoints[..|keypoints| - 1] == old(keypoints);
      UndoData();
    }

    /** A skip followed by Undo behaves the same way, with the skip sentinel in place of the click. */
    method SkipThenUndo()
      modifies this
      ensures keypoints == old(keypoints) && currentFileName == old(currentFileName)
      ensures hint == HintText(|keypoints|)
      ensures old(Valid()) ==> overlay == old(overlay)
      ensures text ==
        if |keypoints| == |JointNames| then ExportText(keypoints)
        else if |keypoints| + 1 == |JointNames| then ExportText(keypoints + [Skipped])
        else old(text)
      ensures Valid()
    {
      SkipKeypoint();
      assert keypoints[..|keypoints| - 1] == old(keypoints);
      UndoData();
    }

    /**
      Undo after the thirteenth entry takes the entry back but not the text:
      an export then still writes the text of all thirteen entries.
     */
    method UndoKeepsExport()
      requires Valid() && |keypoints| == |JointNames|
      modifies this
      ensures keypoints == old(keypoints)[..|JointNames| - 1]
      ensures currentFileName == old(currentFileName) && hint == HintText(|keypoints|)
      ensures overlay == MarksOf(keypoints)
      ensures text == ExportText(old(keypoints))
      ensures DecodeExport(text) == Some(old(keypoints))
      ensures Valid()
    {
      ghost var all := keypoints;
      UndoData();
      DecodeExportText(all);
    }
  }
}
