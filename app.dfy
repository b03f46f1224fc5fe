/** The ofApp object: the authoring fields declared in ofApp.h and the
    handlers of ofApp.cpp that update them in place. Each method is proved to
    move State() exactly as the matching function of Authoring does, and to
    leave the collider file holding the text encoding of the lines whenever the
    source saves it. */
module App {

  import opened Wrappers
  import opened Geometry
  import Text
  import Codec
  import Authoring

  /** The tokens from index j on; empty once j has passed the end. */
  function Rest(tokens: seq<string>, j: nat): (rest: seq<string>)
    ensures j < |tokens| ==> rest == tokens[j..] && rest != []
    ensures j >= |tokens| ==> rest == []
  {
    if j < |tokens| then tokens[j..] else []
  }

  lemma RestStep(tokens: seq<string>, j: nat)
    requires j < |tokens|
    ensures Rest(tokens, j + 2) == Codec.Drop2(Rest(tokens, j))
  {
    if j + 2 < |tokens| {
      assert tokens[j..][2..] == tokens[j + 2..];
    }
  }

  /** The suffix from i starts with s[i] and continues with the suffix from
      i + 1; it is empty at the end. */
  lemma SliceStep<T>(s: seq<T>, i: nat)
    requires i <= |s|
    ensures i < |s| ==> s[i..] != [] && s[i..][0] == s[i] && s[i..][1..] == s[i + 1..]
    ensures i == |s| ==> s[i..] == []
  {
  }

  lemma AppendAssoc<T>(a: seq<T>, b: seq<T>, c: seq<T>)
    ensures a + b + c == a + (b + c)
  {
  }

  class OfApp {
    /** ofPolyline::simplify, whose code is not part of this model. */
    const simplify: Polyline -> Polyline

    var isEditMode: bool
    var drawing: bool
    var pDrawing: bool
    var drawingGuide: bool
    var pGravitySelector: int
    var lines: seq<Polyline>
    var edges: seq<Edge>
    /** The collider file on disk: its text, or None when it cannot be opened. */
    var linesFile: Option<string>

    /** The authoring fields as a value. */
    ghost function State(): Authoring.Author
      reads this
    {
      Authoring.Author(isEditMode, drawing, pDrawing, drawingGuide, lines, edges)
    }

    /** The field initialisers, with the collider file found on disk. */
    constructor(simplify: Polyline -> Polyline, disk: Option<string>)
      ensures State() == Authoring.Init()
      ensures pGravitySelector == 0
      ensures this.simplify == simplify && linesFile == disk
    {
      this.simplify := simplify;
      isEditMode := false;
      drawing := false;
      pDrawing := false;
      drawingGuide := false;
      pGravitySelector := 0;
      lines := [];
      edges := [];
      linesFile := disk;
    }

    /** Writes every polyline as a text line of `x,y,` pairs ending in a
        newline; the file then holds the encoding of the lines. */
    method SaveLinesToFile()
      modifies this`linesFile
      ensures linesFile == Some(Codec.EncodeText(lines))
    {
      var all := lines;
      var out: string := "";
      var i := 0;
      while i < |all|
        invariant 0 <= i <= |all|
        invariant out == Codec.EncodeText(all[..i])
      {
        var line := all[i];
        ghost var before := out;
        var j := 0;
        while j < |line|
          invariant 0 <= j <= |line|
          invariant out == before + Codec.EncodeLine(line[..j])
        {
          var piece := Codec.VertexText(line[j]);
          Codec.EncodeLinePrefix(line, j);
          AppendAssoc(before, Codec.EncodeLine(line[..j]), piece);
          out := out + piece;
          j := j + 1;
        }
        assert line[..j] == line;
        Codec.EncodeTextPrefix(all, i);
        out := out + "\n";
        i := i + 1;
      }
      assert all[..i] == all;
      linesFile := Some(out);
    }

    /** Replaces the last polyline by its simplification, appends an edge
        holding a copy of its vertices, and saves. */
    method CreateEdgeFromLine()
      requires |lines| > 0
      modifies this`lines, this`edges, this`linesFile
      ensures State() == Authoring.CreateEdge(old(State()), simplify)
      ensures linesFile == Some(Codec.EncodeText(lines))
    {
      var last := simplify(Last(lines));
      lines := DropLast(lines) + [last];
      var vertices: seq<Point> := [];
      var i := 0;
      while i < |last|
        invariant 0 <= i <= |last|
        invariant vertices == last[..i]
      {
        vertices := vertices + [last[i]];
        i := i + 1;
      }
      assert last[..i] == last;
      edges := edges + [Edge(vertices)];
      SaveLinesToFile();
    }

    /** Space toggles edit mode; delete and backspace undo the last line and
        edge in edit mode and save; every other key is ignored. */
    method KeyReleased(key: int)
      modifies this`isEditMode, this`drawing, this`drawingGuide, this`lines, this`edges, this`linesFile
      ensures State() == Authoring.KeyReleased(old(State()), key)
      ensures linesFile == if Authoring.Undoes(old(State()), key) then Some(Codec.EncodeText(lines)) else old(linesFile)
      ensures Authoring.Inv(old(State())) ==> Authoring.Inv(State())
    {
      ghost var s0 := State();
      if Authoring.Inv(s0) {
        Authoring.StepPreservesInv(s0, Authoring.KeyRelease(key), simplify);
      }
      if key == Authoring.SPACE {
        isEditMode := !isEditMode;
        drawing := isEditMode;
        if isEditMode {
          drawingGuide := false;
        }
      } else if key == Authoring.KEY_DEL || key == Authoring.KEY_BACKSPACE {
        if isEditMode && |lines| > 0 && |edges| > 0 {
          lines := DropLast(lines);
          edges := DropLast(edges);
          SaveLinesToFile();
        }
      }
    }

    /** The new-polyline rule of mousePressed: a polyline is pushed and
        drawing catches up with pDrawing when they differ or there is no
        polyline. */
    method StartPolylineIfNeeded()
      modifies this`drawing, this`lines
      ensures State() == if Authoring.StartsPolyline(old(State())) then Authoring.StartPolyline(old(State())) else old(State())
      ensures |lines| > 0
    {
      if drawing != pDrawing || |lines| == 0 {
        lines := lines + [[]];
        drawing := pDrawing;
      }
    }

    /** lines.back().addVertex(x, y) */
    method AddVertexToLast(x: int, y: int)
      requires |lines| > 0
      modifies this`lines
      ensures State() == Authoring.AddVertex(old(State()), Point(x, y))
      ensures |lines| > 0
    {
      lines := DropLast(lines) + [Last(lines) + [Point(x, y)]];
    }

    /** The body of mousePressed under its isEditMode guard: the new-polyline
        rule, the vertex (x, y), an edge committed and the guide turned on. */
    method PressInEditMode(x: int, y: int)
      requires isEditMode
      modifies this`drawing, this`drawingGuide, this`lines, this`edges, this`linesFile
      ensures State() == Authoring.MousePressed(old(State()), x, y, simplify)
      ensures linesFile == Some(Codec.EncodeText(lines))
    {
      ghost var s0 := State();
      StartPolylineIfNeeded();
      ghost var s1 := State();
      AddVertexToLast(x, y);
      ghost var s2 := State();
      CreateEdgeFromLine();
      ghost var s3 := State();
      drawingGuide := true;
      assert State() == s3.(drawingGuide := true);
      Authoring.MousePressedSteps(s0, s1, s2, s3, x, y, simplify);
    }

    /** A press does something only in edit mode, and then saves; the button
        is not consulted. */
    method MousePressed(x: int, y: int, button: int)
      modifies this`drawing, this`drawingGuide, this`lines, this`edges, this`linesFile
      ensures State() == Authoring.MousePressed(old(State()), x, y, simplify)
      ensures linesFile == if old(isEditMode) then Some(Codec.EncodeText(lines)) else old(linesFile)
      ensures Authoring.Inv(old(State())) ==> Authoring.Inv(State())
    {
      ghost var s0 := State();
      if isEditMode {
        PressInEditMode(x, y);
      }
      if Authoring.Inv(s0) {
        Authoring.PressPreservesInv(s0, x, y, simplify);
      }
    }

    /** The inner loop of loadLinesFromFile over the tokens of one text line:
        for each even index j, the vertex (pts[j], pts[j+1]) is added to the
        last polyline when pts[j] is non-empty and pts[j+1] exists, and an
        edge is committed (and the file saved) in every pass. */
    method LoadTokens(pts: seq<string>)
      requires |lines| > 0 && |pts| > 0
      modifies this`lines, this`edges, this`linesFile
      ensures State() == Authoring.LoadTokens(old(State()), pts, simplify)
      ensures linesFile == Some(Codec.EncodeText(lines))
    {
      ghost var started := State();
      var j := 0;
      while j < |pts|
        invariant j <= |pts| + 1
        invariant |lines| > 0
        invariant Authoring.LoadTokens(State(), Rest(pts, j), simplify)
               == Authoring.LoadTokens(started, pts, simplify)
        invariant j > 0 ==> linesFile == Some(Codec.EncodeText(lines))
      {
        ghost var s := State();
        ghost var rest := Rest(pts, j);
        RestStep(pts, j);
        if |pts[j]| > 0 && j + 1 < |pts| {
          var x := Codec.ToCoord(pts[j]);
          var y := Codec.ToCoord(pts[j + 1]);
          lines := DropLast(lines) + [Last(lines) + [Point(x, y)]];
        }
        ghost var s1 := State();
        assert s1 == Authoring.ReadPair(s, rest);
        CreateEdgeFromLine();
        Authoring.LoadTokensStep(s, rest, State(), simplify);
        j := j + 2;
      }
      assert Rest(pts, j) == [];
    }

    /** One pass of loadLinesFromFile's outer loop: the text line is split at
        commas and, when that gives any token, a new polyline is pushed and
        filled from the tokens. */
    method LoadTextLine(text: string)
      modifies this`lines, this`edges, this`linesFile
      ensures State() == Authoring.LoadTextLine(old(State()), text, simplify)
      ensures linesFile == Some(Codec.EncodeText(lines))
    {
      var pts := Text.Split(text, ',');
      if |pts| > 0 {
        lines := lines + [[]];
        LoadTokens(pts);
      }
    }

    /** The body of loadLinesFromFile once the file has opened with the given
        text: the lines are cleared and each text line of the file is loaded
        in turn. The text lines are read with the getline idiom, so no empty
        line follows the final newline. */
    method LoadOpenedFile(text: string)
      requires linesFile == Some(text)
      modifies this`lines, this`edges, this`linesFile
      ensures State() == Authoring.LoadTextLines(old(State()).(lines := []), Codec.FileLines(text), simplify)
      ensures linesFile == Some(Codec.EncodeText(lines))
    {
      var strLines := Codec.FileLines(text);
      lines := [];
      ghost var goal := Authoring.LoadTextLines(State(), strLines, simplify);
      var i := 0;
      while i < |strLines|
        invariant 0 <= i <= |strLines|
        invariant Authoring.LoadTextLines(State(), strLines[i..], simplify) == goal
        invariant i > 0 ==> linesFile == Some(Codec.EncodeText(lines))
        invariant i == 0 ==> lines == [] && linesFile == Some(text)
      {
        ghost var s := State();
        SliceStep(strLines, i);
        LoadTextLine(strLines[i]);
        Authoring.LoadTextLinesStep(s, strLines[i..], State(), simplify);
        i := i + 1;
      }
      SliceStep(strLines, i);
    }

    /** Reads the collider file: when it opens, the lines are cleared and each
        of its text lines becomes a polyline, one edge being committed per pair
        of tokens. Every commit saves, so afterwards the file holds the encoding
        of the loaded lines; without a file nothing changes. */
    method LoadLinesFromFile()
      modifies this`lines, this`edges, this`linesFile
      ensures State() == Authoring.LoadLinesFromFile(old(State()), old(linesFile), simplify)
      ensures linesFile == if old(linesFile).None? then None else Some(Codec.EncodeText(lines))
      ensures Authoring.Inv(old(State())) ==> Authoring.Inv(State())
    {
      if linesFile.None? {
        return;
      }
      ghost var s0, file := State(), linesFile;
      LoadOpenedFile(linesFile.value);
      if Authoring.Inv(s0) {
        Authoring.LoadPreservesInv(s0, file, simplify);
      }
    }
  }
}
