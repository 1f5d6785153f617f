/**
  The export text the annotator shows in its text area and writes to disk
  (`updateVisualize` and `exportData` in imageviewer.cpp): one line for the
  camera keypoint, four placeholder lines, then one line for each of the
  twelve body keypoints, separated by newlines. Also the derivation of the
  export file name from the image file name.
 */
module ExportFormat {
  import opened Options
  import opened Strings
  import opened Keypoints

  /** Three fields separated by ", ". */
  function Triple(a: string, b: string, c: string): string {
    a + ", " + b + ", " + c
  }

  /** The line for a keypoint that has no coordinates. */
  const ZeroRow: string := "0, 0, 0"

  /** The line for a keypoint with coordinates "x, y, 2", whatever the coordinates are. */
  function VisibleRow(k: Keypoint): string {
    Triple(IntToString(k.x), IntToString(k.y), "2")
  }

  /** The line for keypoints 1 to 12: a skipped keypoint becomes the zero line. */
  function Row(k: Keypoint): string {
    if IsSkipped(k) then ZeroRow else VisibleRow(k)
  }

  /** Line `i` of the export: the camera keypoint, four zero lines, then keypoints 1 to 12. */
  function ExportLine(kps: seq<Keypoint>, i: nat): string
    requires |kps| == |JointNames| && i < 17
  {
    if i == 0 then VisibleRow(kps[0])
    else if i < 5 then ZeroRow
    else Row(kps[i - 4])
  }

  /** The seventeen lines of the export, for a list of exactly thirteen keypoints. */
  function ExportLines(kps: seq<Keypoint>): seq<string>
    requires |kps| == |JointNames|
  {
    seq(17, i requires 0 <= i < 17 => ExportLine(kps, i))
  }

  function ExportText(kps: seq<Keypoint>): string
    requires |kps| == |JointNames|
  {
    Join(ExportLines(kps), '\n')
  }

  /** The text built the way the program builds it: one line appended at a time. */
  method BuildExportText(kps: seq<Keypoint>) returns (str: string)
    requires |kps| == |JointNames|
    ensures str == ExportText(kps)
  {
    ghost var lines := ExportLines(kps);
    str := Triple(IntToString(kps[0].x), IntToString(kps[0].y), "2");
    assert lines[..1] == [str];
    for i := 0 to 4
      invariant str == Join(lines[..i + 1], '\n')
    {
      JoinPrefixStep(lines, i + 1);
      str := str + "\n" + ZeroRow;
    }
    for i := 1 to |kps|
      invariant str == Join(lines[..i + 4], '\n')
    {
      var row;
      if kps[i].x == -1 && kps[i].y == -1 {
        row := ZeroRow;
      } else {
        row := Triple(IntToString(kps[i].x), IntToString(kps[i].y), "2");
      }
      assert row == lines[i + 4];
      JoinPrefixStep(lines, i + 4);
      str := str + "\n" + row;
    }
    assert lines[..17] == lines;
  }

  lemma JoinPrefixStep(lines: seq<string>, n: nat)
    requires 1 <= n < |lines|
    ensures Join(lines[..n + 1], '\n') == Join(lines[..n], '\n') + "\n" + lines[n]
  {
    assert lines[..n + 1] == lines[..n] + [lines[n]];
    JoinSnoc(lines[..n], lines[n], '\n');
  }

  // ---------------------------------------------------------------------
  // Reading an export back
  // ---------------------------------------------------------------------

  /** A line "x, y, 2" gives the keypoint (x, y); the zero line "0, 0, 0" gives the skip sentinel. */
  function DecodeRow(line: string): Option<Keypoint> {
    var f := Split(line, ',');
    if |f| == 3 && |f[1]| > 0 && f[1][0] == ' ' && |f[2]| > 0 && f[2][0] == ' ' then
      var x, y, v := ParseInt(f[0]), ParseInt(f[1][1..]), f[2][1..];
      if x.Some? && y.Some? && v == "2" then Some(Keypoint(x.value, y.value))
      else if x == Some(0) && y == Some(0) && v == "0" then Some(Skipped)
      else None
    else None
  }

  function DecodeRows(lines: seq<string>): Option<seq<Keypoint>>
    decreases |lines|
  {
    if |lines| == 0 then Some([])
    else
      match (DecodeRow(lines[0]), DecodeRows(lines[1..]))
      case (Some(k), Some(ks)) => Some([k] + ks)
      case _ => None
  }

  /** Reads the thirteen keypoints back from an export text, if it has the export's layout. */
  function DecodeExport(text: string): Option<seq<Keypoint>> {
    DecodeLines(Split(text, '\n'))
  }

  /** Reads the thirteen keypoints back from the seventeen lines of an export. */
  function DecodeLines(lines: seq<string>): Option<seq<Keypoint>> {
    if |lines| == 17 && forall i :: 1 <= i < 5 ==> lines[i] == ZeroRow then
      match (DecodeRow(lines[0]), DecodeRows(lines[5..]))
      case (Some(k), Some(ks)) => Some([k] + ks)
      case _ => None
    else None
  }

  lemma SplitTriple(a: string, b: string, c: string)
    requires ',' !in a && ',' !in b && ',' !in c
    ensures Split(Triple(a, b, c), ',') == [a, " " + b, " " + c]
  {
    var parts := [a, " " + b, " " + c];
    assert Join(parts[2..], ',') == " " + c;
    assert Join(parts[1..], ',') == " " + b + [','] + " " + c;
    assert Triple(a, b, c) == Join(parts, ',');
    SplitJoin(parts, ',');
  }

  lemma NumberHasNo(s: string, c: char)
    requires NumberChars(s) && !IsDigit(c) && c != '-'
    ensures c !in s
  {
    forall i | 0 <= i < |s| ensures s[i] != c {
    }
  }

  /** Every line of the export reads back as the keypoint it was written for. */
  lemma DecodeRowOf(k: Keypoint)
    ensures DecodeRow(VisibleRow(k)) == Some(k)
    ensures DecodeRow(Row(k)) == Some(k)
  {
    DecodeVisibleRow(k);
    if IsSkipped(k) {
      DecodeZeroRow();
    }
  }

  lemma DecodeVisibleRow(k: Keypoint)
    ensures DecodeRow(VisibleRow(k)) == Some(k)
  {
    var a, b := IntToString(k.x), IntToString(k.y);
    NumberHasNo(a, ',');
    NumberHasNo(b, ',');
    SplitTriple(a, b, "2");
    var f := Split(VisibleRow(k), ',');
    assert f[1][1..] == b && f[2][1..] == "2";
    ParseIntToString(k.x);
    ParseIntToString(k.y);
  }

  /** The zero line reads back as the skip sentinel. */
  lemma DecodeZeroRow()
    ensures DecodeRow(ZeroRow) == Some(Skipped)
  {
    var z := IntToString(0);
    assert z == "0";
    assert ZeroRow == Triple(z, z, "0");
    SplitTriple(z, z, "0");
    assert (" " + z)[1..] == z;
    ParseIntToString(0);
  }

  lemma {:induction false} DecodeRowsOf(lines: seq<string>, ks: seq<Keypoint>)
    requires |lines| == |ks|
    requires forall i :: 0 <= i < |ks| ==> DecodeRow(lines[i]) == Some(ks[i])
    ensures DecodeRows(lines) == Some(ks)
    decreases |lines|
  {
    if |lines| > 0 {
      DecodeRowsOf(lines[1..], ks[1..]);
      assert [ks[0]] + ks[1..] == ks;
    }
  }

  /** A line of the export never contains a newline. */
  lemma RowHasNoNewline(k: Keypoint)
    ensures '\n' !in VisibleRow(k) && '\n' !in Row(k)
  {
    NumberHasNo(IntToString(k.x), '\n');
    NumberHasNo(IntToString(k.y), '\n');
  }

  /**
    The export text consists of exactly seventeen lines: the camera keypoint
    (written as coordinates even when it was skipped), four zero lines, and
    keypoints 1 to 12 in order, a skipped one as the zero line.
   */
  lemma ExportLinesHaveNoNewline(kps: seq<Keypoint>)
    requires |kps| == |JointNames|
    ensures |ExportLines(kps)| == 17
    ensures forall i :: 0 <= i < 17 ==> '\n' !in ExportLines(kps)[i]
  {
    var lines := ExportLines(kps);
    RowHasNoNewline(kps[0]);
    forall i | 5 <= i < 17 ensures '\n' !in lines[i] {
      assert lines[i] == Row(kps[i - 4]);
      RowHasNoNewline(kps[i - 4]);
    }
  }

  /** The export text splits at its newlines back into its seventeen lines. */
  lemma SplitExportText(kps: seq<Keypoint>)
    requires |kps| == |JointNames|
    ensures Split(ExportText(kps), '\n') == ExportLines(kps)
  {
    ExportLinesHaveNoNewline(kps);
    SplitJoin(ExportLines(kps), '\n');
  }

  lemma ExportTextLayout(kps: seq<Keypoint>)
    requires |kps| == |JointNames|
    ensures var lines := Split(ExportText(kps), '\n');
      && |lines| == 17
      && lines[0] == VisibleRow(kps[0])
      && (forall i :: 1 <= i < 5 ==> lines[i] == ZeroRow)
      && (forall i :: 1 <= i < 13 ==> lines[i + 4] == (if IsSkipped(kps[i]) then ZeroRow else VisibleRow(kps[i])))
  {
    SplitExportText(kps);
    ExportLinesLayout(kps, ExportLines(kps));
  }

  /** The layout of `ExportTextLayout`, on the list of lines before joining (helper). */
  lemma ExportLinesLayout(kps: seq<Keypoint>, lines: seq<string>)
    requires |kps| == |JointNames| && lines == ExportLines(kps)
    ensures |lines| == 17 && lines[0] == VisibleRow(kps[0])
    ensures forall i :: 1 <= i < 5 ==> lines[i] == ZeroRow
    ensures forall i :: 1 <= i < 13 ==> lines[i + 4] == (if IsSkipped(kps[i]) then ZeroRow else VisibleRow(kps[i]))
  {
    assert lines[0] == ExportLine(kps, 0);
    forall i | 1 <= i < 5 ensures lines[i] == ZeroRow {
      assert lines[i] == ExportLine(kps, i);
    }
    forall i | 1 <= i < 13
      ensures lines[i + 4] == (if IsSkipped(kps[i]) then ZeroRow else VisibleRow(kps[i]))
    {
      assert lines[i + 4] == ExportLine(kps, i + 4) == Row(kps[i]);
    }
  }

  /**
    Nothing is lost in the export: reading the text back gives the thirteen
    keypoints it was written from, skipped ones included.
   */
  lemma DecodeExportText(kps: seq<Keypoint>)
    requires |kps| == |JointNames|
    ensures DecodeExport(ExportText(kps)) == Some(kps)
  {
    SplitExportText(kps);
    DecodeRowOf(kps[0]);
    DecodeBodyRows(kps);
    DecodeExportOfLines(ExportLines(kps), kps);
  }

  /** Lines 5 to 16 read back as keypoints 1 to 12. */
  lemma DecodeBodyRows(kps: seq<Keypoint>)
    requires |kps| == |JointNames|
    ensures DecodeRows(ExportLines(kps)[5..]) == Some(kps[1..])
  {
    var body := ExportLines(kps)[5..];
    forall i | 0 <= i < 12 ensures DecodeRow(body[i]) == Some(kps[1..][i]) {
      DecodeRowOf(kps[i + 1]);
    }
    DecodeRowsOf(body, kps[1..]);
  }

  lemma DecodeExportOfLines(lines: seq<string>, kps: seq<Keypoint>)
    requires |kps| == |JointNames|
    requires |lines| == 17 && forall i :: 1 <= i < 5 ==> lines[i] == ZeroRow
    requires DecodeRow(lines[0]) == Some(kps[0]) && DecodeRows(lines[5..]) == Some(kps[1..])
    ensures DecodeLines(lines) == Some(kps)
  {
    assert [kps[0]] + kps[1..] == kps;
  }

  // ---------------------------------------------------------------------
  // The export file name
  // ---------------------------------------------------------------------

  /** Every "jpeg", then every "jpg", then every "png" in the whole path becomes "txt". */
  function ExportPath(fileName: string): string {
    ReplaceAll(ReplaceAll(ReplaceAll(fileName, "jpeg", "txt"), "jpg", "txt"), "png", "txt")
  }

  /** No "jpeg", "jpg" or "png" is left anywhere in the export path. */
  lemma ExportPathHasNoImageExtension(fileName: string)
    ensures !Occurs("jpeg", ExportPath(fileName))
    ensures !Occurs("jpg", ExportPath(fileName))
    ensures !Occurs("png", ExportPath(fileName))
  {
    assert Disjoint("txt", "jpeg") && Disjoint("txt", "jpg") && Disjoint("txt", "png");
    var s1 := ReplaceAll(fileName, "jpeg", "txt");
    var s2 := ReplaceAll(s1, "jpg", "txt");
    ReplaceAllRemoves(fileName, "jpeg", "txt");
    ReplaceAllRemoves(s1, "jpg", "txt");
    ReplaceAllKeepsAbsent(s1, "jpg", "txt", "jpeg");
    ReplaceAllRemoves(s2, "png", "txt");
    ReplaceAllKeepsAbsent(s2, "png", "txt", "jpeg");
    ReplaceAllKeepsAbsent(s2, "png", "txt", "jpg");
  }

  /**
    A path without any of the three names is its own export path: exporting
    the keypoints of such an image targets the image file itself.
   */
  lemma ExportPathOfOtherName(fileName: string)
    requires !Occurs("jpeg", fileName) && !Occurs("jpg", fileName) && !Occurs("png", fileName)
    ensures ExportPath(fileName) == fileName
  {
    ReplaceAllAbsent(fileName, "jpeg", "txt");
    ReplaceAllAbsent(fileName, "jpg", "txt");
    ReplaceAllAbsent(fileName, "png", "txt");
  }

  /**
    The image extension is what gets renamed: a file name ending in ".jpeg",
    ".jpg" or ".png" after a stem free of the three names gets the export
    path with ".txt" in its place.
   */
  lemma ExportPathOfImage(stem: string, ext: string)
    requires ext == ".jpeg" || ext == ".jpg" || ext == ".png"
    requires !Occurs("jpeg", stem) && !Occurs("jpg", stem) && !Occurs("png", stem)
    ensures ExportPath(stem + ext) == stem + ".txt"
  {
    var s1 := ReplaceAll(stem + ext, "jpeg", "txt");
    NoOccurrenceAcross(stem, ext, "jpeg");
    ReplaceAllAfter(stem, ext, "jpeg", "txt");
    var e1 := ReplaceAll(ext, "jpeg", "txt");
    ExtensionStep1(ext);
    var s2 := ReplaceAll(s1, "jpg", "txt");
    NoOccurrenceAcross(stem, e1, "jpg");
    ReplaceAllAfter(stem, e1, "jpg", "txt");
    var e2 := ReplaceAll(e1, "jpg", "txt");
    ExtensionStep2(e1);
    NoOccurrenceAcross(stem, e2, "png");
    ReplaceAllAfter(stem, e2, "png", "txt");
    ExtensionStep3(e2);
  }

  lemma ExtensionStep1(ext: string)
    requires ext == ".jpeg" || ext == ".jpg" || ext == ".png"
    ensures var e := ReplaceAll(ext, "jpeg", "txt");
      e == (if ext == ".jpeg" then ".txt" else ext)
  {
    ExtensionSplit(ext);
    ReplaceAllStep(ext, "jpeg", "txt");
    var name := ext[1..];
    if ext == ".jpeg" {
      ReplaceAllMatch(name, "jpeg", "txt");
      ReplaceAllShort("", "jpeg", "txt");
    } else {
      ReplaceAllShort(name, "jpeg", "txt");
    }
  }

  lemma ExtensionStep2(ext: string)
    requires ext == ".txt" || ext == ".jpg" || ext == ".png"
    ensures var e := ReplaceAll(ext, "jpg", "txt");
      e == (if ext == ".jpg" then ".txt" else ext)
  {
    ExtensionSplit(ext);
    ReplaceAllStep(ext, "jpg", "txt");
    var name := ext[1..];
    if ext == ".jpg" {
      ReplaceAllMatch(name, "jpg", "txt");
      ReplaceAllShort("", "jpg", "txt");
    } else {
      ReplaceAllStep(name, "jpg", "txt");
      ReplaceAllShort(name[1..], "jpg", "txt");
    }
  }

  lemma ExtensionStep3(ext: string)
    requires ext == ".txt" || ext == ".png"
    ensures ReplaceAll(ext, "png", "txt") == ".txt"
  {
    ExtensionSplit(ext);
    ReplaceAllStep(ext, "png", "txt");
    var name := ext[1..];
    if ext == ".png" {
      ReplaceAllMatch(name, "png", "txt");
      ReplaceAllShort("", "png", "txt");
    } else {
      ReplaceAllStep(name, "png", "txt");
      ReplaceAllShort(name[1..], "png", "txt");
    }
  }

  /** An extension is a dot followed by its name, and the name is its first letter followed by the rest. */
  lemma ExtensionSplit(ext: string)
    requires ext == ".jpeg" || ext == ".jpg" || ext == ".png" || ext == ".txt"
    ensures ext[0] == '.' && ext == [ext[0]] + ext[1..]
    ensures var name := ext[1..];
      && name == [name[0]] + name[1..]
      && (ext == ".jpeg" ==> name == "jpeg" && name[..4] == "jpeg" && name[4..] == "")
      && (ext == ".jpg" ==> name == "jpg" && name[..3] == "jpg" && name[3..] == "")
      && (ext == ".png" ==> name == "png" && name[..3] == "png" && name[3..] == "")
      && (ext == ".txt" ==> name == "txt")
  {
  }
}
