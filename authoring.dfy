/** The collider-authoring state of ofApp as a value, and its transitions as
    functions: the key and mouse handlers, the edge commit and the load. The
    class App.OfApp performs each transition in place and is proved to agree
    with these functions; the properties of the editor are lemmas about them.
    Saving the file is the class's business (App.OfApp.SaveLinesToFile). */
module Authoring {

  import opened Wrappers
  import opened Geometry
  import Text
  import Codec

  /** Key codes: ' ', OF_KEY_BACKSPACE and OF_KEY_DEL of openFrameworks. */
  const SPACE: int := 32
  const KEY_BACKSPACE: int := 8
  const KEY_DEL: int := 127

  /** The fields the authoring handlers read and write. */
  datatype Author = Author(
    isEditMode: bool,
    drawing: bool,
    pDrawing: bool,
    drawingGuide: bool,
    lines: seq<Polyline>,
    edges: seq<Edge>)

  /** Every polyline has at least one edge committed for it, and pDrawing keeps
      the value it was initialised with. */
  predicate Inv(s: Author)
  {
    |s.edges| >= |s.lines| && !s.pDrawing
  }

  /** The four flags of two states agree. */
  predicate SameFlags(a: Author, b: Author)
  {
    a.isEditMode == b.isEditMode && a.drawing == b.drawing
    && a.pDrawing == b.pDrawing && a.drawingGuide == b.drawingGuide
  }

  /** The state at start-up, before the collider file is loaded. */
  function Init(): (s: Author)
    ensures Inv(s)
  {
    Author(false, false, false, false, [], [])
  }

  /** Whether a released key undoes the last line and edge (and saves). */
  predicate Undoes(s: Author, key: int)
  {
    (key == KEY_DEL || key == KEY_BACKSPACE) && s.isEditMode && |s.lines| > 0 && |s.edges| > 0
  }

  function KeyReleased(s: Author, key: int): Author
  {
    if key == SPACE then
      var editing := !s.isEditMode;
      s.(isEditMode := editing, drawing := editing,
         drawingGuide := if editing then false else s.drawingGuide)
    else if key == KEY_DEL || key == KEY_BACKSPACE then
      if s.isEditMode && |s.lines| > 0 && |s.edges| > 0 then
        s.(lines := DropLast(s.lines), edges := DropLast(s.edges))
      else
        s
    else
      s
  }

  /** createEdgeFromLine: the last polyline is replaced by its simplification
      and an edge with the simplified vertices is appended. */
  function CreateEdge(s: Author, simplify: Polyline -> Polyline): Author
    requires |s.lines| > 0
  {
    var simplified := simplify(Last(s.lines));
    s.(lines := DropLast(s.lines) + [simplified], edges := s.edges + [Edge(simplified)])
  }

  /** lines.back().addVertex(p) */
  function AddVertex(s: Author, p: Point): Author
    requires |s.lines| > 0
  {
    s.(lines := DropLast(s.lines) + [Last(s.lines) + [p]])
  }

  /** lines.push_back(ofPolyline()); drawing = pDrawing; */
  function StartPolyline(s: Author): Author
  {
    s.(lines := s.lines + [[]], drawing := s.pDrawing)
  }

  /** The part of a press in edit mode after the new-polyline rule. */
  function ExtendAndCommit(s: Author, p: Point, simplify: Polyline -> Polyline): Author
    requires |s.lines| > 0
  {
    CreateEdge(AddVertex(s, p), simplify).(drawingGuide := true)
  }

  /** mousePressed as the source writes it. None stands for the call of
      lines.back() on an empty vector, whose behaviour is undefined. */
  function PressAsWritten(s: Author, x: int, y: int, simplify: Polyline -> Polyline): (r: Option<Author>)
    ensures !s.isEditMode ==> r == Some(s)
    ensures s.isEditMode && r.Some? ==>
      && |r.value.edges| == |s.edges| + 1 && |r.value.lines| > 0
      && Last(r.value.edges).vertices == Last(r.value.lines)
  {
    if !s.isEditMode then
      Some(s)
    else
      var s1 := if s.drawing != s.pDrawing then StartPolyline(s) else s;
      if |s1.lines| == 0 then None else Some(ExtendAndCommit(s1, Point(x, y), simplify))
  }

  /** Whether a press starts a new polyline: the source's rule, plus the case
      of no polyline to extend. */
  predicate StartsPolyline(s: Author)
  {
    s.drawing != s.pDrawing || s.lines == []
  }

  /** mousePressed with a polyline also started when there is none to extend. */
  function MousePressed(s: Author, x: int, y: int, simplify: Polyline -> Polyline): Author
  {
    if !s.isEditMode then
      s
    else
      var s1 := if StartsPolyline(s) then StartPolyline(s) else s;
      ExtendAndCommit(s1, Point(x, y), simplify)
  }

  /** One pass of the load's inner loop: the vertex of the pair at the front
      when its x token is non-empty and a y token follows it, then a commit. */
  function LoadPair(s: Author, tokens: seq<string>, simplify: Polyline -> Polyline): Author
    requires |s.lines| > 0 && tokens != []
  {
    CreateEdge(ReadPair(s, tokens), simplify)
  }

  /** The vertex of the pair at the front, when its x token is non-empty and a
      y token follows it, added to the last polyline. */
  function ReadPair(s: Author, tokens: seq<string>): Author
    requires |s.lines| > 0 && tokens != []
  {
    if tokens[0] != "" && |tokens| >= 2
    then AddVertex(s, Point(Codec.ToCoord(tokens[0]), Codec.ToCoord(tokens[1])))
    else s
  }

  /** One pass of the load's inner loop, as LoadTokens unfolds it. */
  lemma LoadTokensStep(s: Author, tokens: seq<string>, s2: Author, simplify: Polyline -> Polyline)
    requires |s.lines| > 0 && tokens != []
    requires s2 == CreateEdge(ReadPair(s, tokens), simplify)
    ensures |s2.lines| > 0
    ensures LoadTokens(s, tokens, simplify) == LoadTokens(s2, Codec.Drop2(tokens), simplify)
  {
  }

  /** The inner loop of loadLinesFromFile over the tokens of one text line. */
  function LoadTokens(s: Author, tokens: seq<string>, simplify: Polyline -> Polyline): Author
    requires |s.lines| > 0
    decreases |tokens|
  {
    if tokens == [] then s else LoadTokens(LoadPair(s, tokens, simplify), Codec.Drop2(tokens), simplify)
  }

  /** One text line of the file: a new polyline when its split is non-empty. */
  function LoadTextLine(s: Author, text: string, simplify: Polyline -> Polyline): Author
  {
    var tokens := Text.Split(text, ',');
    if |tokens| > 0 then LoadTokens(s.(lines := s.lines + [[]]), tokens, simplify) else s
  }

  function LoadTextLines(s: Author, texts: seq<string>, simplify: Polyline -> Polyline): Author
    decreases |texts|
  {
    if texts == [] then s else LoadTextLines(LoadTextLine(s, texts[0], simplify), texts[1..], simplify)
  }

  /** One pass of the load's outer loop, as LoadTextLines unfolds it. */
  lemma LoadTextLinesStep(s: Author, texts: seq<string>, s2: Author, simplify: Polyline -> Polyline)
    requires texts != [] && s2 == LoadTextLine(s, texts[0], simplify)
    ensures LoadTextLines(s, texts, simplify) == LoadTextLines(s2, texts[1..], simplify)
  {
  }

  /** loadLinesFromFile, given the file's text (None when it cannot be opened):
      nothing happens without a file; otherwise the lines (and not the edges)
      are cleared and every text line of the file is loaded. The text lines
      are those the getline idiom reads (Codec.FileLines), not the extra empty
      one the loop as written adds after a final newline. */
  function LoadLinesFromFile(s: Author, file: Option<string>, simplify: Polyline -> Polyline): Author
  {
    match file
    case None => s
    case Some(text) => LoadTextLines(s.(lines := []), Codec.FileLines(text), simplify)
  }

  /** MousePressed in edit mode is its three steps in turn. */
  lemma MousePressedSteps(s0: Author, s1: Author, s2: Author, s3: Author, x: int, y: int, simplify: Polyline -> Polyline)
    requires s0.isEditMode
    requires s1 == if StartsPolyline(s0) then StartPolyline(s0) else s0
    requires |s1.lines| > 0 && s2 == AddVertex(s1, Point(x, y))
    requires |s2.lines| > 0 && s3 == CreateEdge(s2, simplify)
    ensures MousePressed(s0, x, y, simplify) == s3.(drawingGuide := true)
  {
  }

  /** The input events the editor reacts to. */
  datatype Event = KeyRelease(key: int) | MousePress(x: int, y: int)

  function Step(s: Author, e: Event, simplify: Polyline -> Polyline): Author
  {
    match e
    case KeyRelease(key) => KeyReleased(s, key)
    case MousePress(x, y) => MousePressed(s, x, y, simplify)
  }

  function Run(s: Author, events: seq<Event>, simplify: Polyline -> Polyline): Author
    decreases |events|
  {
    if events == [] then s else Run(Step(s, events[0], simplify), events[1..], simplify)
  }

  // ---------------------------------------------------------------------------
  // The key handler

  /** The space key flips edit mode, makes drawing equal the new mode, turns
      the guide off on entering edit mode and keeps it on leaving, and leaves
      the geometry alone. */
  lemma SpaceToggles(s: Author)
    ensures var r := KeyReleased(s, SPACE);
      && r.isEditMode == !s.isEditMode
      && r.drawing == r.isEditMode
      && r.drawingGuide == (if r.isEditMode then false else s.drawingGuide)
      && r.pDrawing == s.pDrawing
      && r.lines == s.lines && r.edges == s.edges
  {
  }

  /** Delete and backspace undo the last line and its last edge, in edit mode
      when both are non-empty; otherwise they change nothing. */
  lemma UndoRemovesLast(s: Author, key: int)
    requires key == KEY_DEL || key == KEY_BACKSPACE
    ensures var r := KeyReleased(s, key);
      if s.isEditMode && |s.lines| > 0 && |s.edges| > 0 then
        && |r.lines| == |s.lines| - 1 && r.lines == s.lines[..|r.lines|]
        && |r.edges| == |s.edges| - 1 && r.edges == s.edges[..|r.edges|]
        && SameFlags(r, s)
      else
        r == s
  {
  }

  lemma OtherKeysIgnored(s: Author, key: int)
    requires key != SPACE && key != KEY_DEL && key != KEY_BACKSPACE
    ensures KeyReleased(s, key) == s
  {
  }

  // ---------------------------------------------------------------------------
  // The mouse handler

  lemma PressOutsideEditModeIgnored(s: Author, x: int, y: int, simplify: Polyline -> Polyline)
    requires !s.isEditMode
    ensures MousePressed(s, x, y, simplify) == s
  {
  }

  /** A press in edit mode starts a polyline exactly when drawing differs from
      pDrawing or there is none, adds (x, y) to the last polyline, replaces it
      by its simplification, appends one edge holding the same vertices, turns
      the guide on and leaves every earlier line and edge alone. */
  lemma PressExtendsAndCommits(s: Author, x: int, y: int, simplify: Polyline -> Polyline)
    requires s.isEditMode
    ensures var r := MousePressed(s, x, y, simplify);
      var kept := if StartsPolyline(s) then s.lines else DropLast(s.lines);
      var base := if StartsPolyline(s) then [] else Last(s.lines);
      && |r.lines| == |kept| + 1
      && r.lines[..|kept|] == kept
      && Last(r.lines) == simplify(base + [Point(x, y)])
      && r.edges == s.edges + [Edge(Last(r.lines))]
      && r.drawing == r.pDrawing == s.pDrawing
      && r.drawingGuide && r.isEditMode
  {
    var s1 := if StartsPolyline(s) then StartPolyline(s) else s;
    var kept := if StartsPolyline(s) then s.lines else DropLast(s.lines);
    assert DropLast(s1.lines) == kept;
    var r := MousePressed(s, x, y, simplify);
    assert r.lines == kept + [simplify(Last(s1.lines) + [Point(x, y)])];
  }

  /** From a state reached by the handlers, the first press after entering
      edit mode starts a polyline holding the simplification of its vertex,
      and the next press extends that same polyline. */
  lemma {:induction false} FirstPressStartsPolyline(s: Author, x: int, y: int, x': int, y': int, simplify: Polyline -> Polyline)
    requires Inv(s) && !s.isEditMode
    ensures var t := KeyReleased(s, SPACE);
      var u := MousePressed(t, x, y, simplify);
      var v := MousePressed(u, x', y', simplify);
      && |u.lines| == |s.lines| + 1 && u.lines[..|s.lines|] == s.lines
      && Last(u.lines) == simplify([Point(x, y)])
      && |v.lines| == |u.lines| && v.lines[..|s.lines|] == s.lines
      && Last(v.lines) == simplify(Last(u.lines) + [Point(x', y')])
  {
    var t := KeyReleased(s, SPACE);
    assert StartsPolyline(t);
    PressExtendsAndCommits(t, x, y, simplify);
    var u := MousePressed(t, x, y, simplify);
    assert [] + [Point(x, y)] == [Point(x, y)];
    assert !StartsPolyline(u);
    PressExtendsAndCommits(u, x', y', simplify);
    var v := MousePressed(u, x', y', simplify);
    assert v.lines[..|s.lines|] == v.lines[..|u.lines| - 1][..|s.lines|];
    assert DropLast(u.lines) == u.lines[..|s.lines|];
  }

  /** A press before the first toggle changes nothing. */
  lemma PressBeforeToggleIgnored(x: int, y: int, simplify: Polyline -> Polyline)
    ensures MousePressed(Init(), x, y, simplify) == Init()
  {
  }

  /** Where the source's mousePressed is defined it agrees with MousePressed;
      it is undefined exactly in edit mode with no polyline started and none
      to extend. */
  lemma PressAsWrittenAgrees(s: Author, x: int, y: int, simplify: Polyline -> Polyline)
    ensures PressAsWritten(s, x, y, simplify).None? <==>
            s.isEditMode && s.drawing == s.pDrawing && s.lines == []
    ensures PressAsWritten(s, x, y, simplify).Some? ==>
            PressAsWritten(s, x, y, simplify).value == MousePressed(s, x, y, simplify)
  {
  }

  /** Space, a press, delete and a second press: the delete removes the only
      polyline, and the source's second press then calls lines.back() on an
      empty vector, where MousePressed starts a new polyline. */
  lemma PressAfterUndoingEverythingFaults(simplify: Polyline -> Polyline)
    ensures var s1 := KeyReleased(Init(), SPACE);
      var s2 := MousePressed(s1, 0, 0, simplify);
      var s3 := KeyReleased(s2, KEY_DEL);
      && PressAsWritten(s1, 0, 0, simplify) == Some(s2)
      && s3.isEditMode && s3.lines == []
      && PressAsWritten(s3, 1, 1, simplify) == None
      && MousePressed(s3, 1, 1, simplify).lines == [simplify([Point(1, 1)])]
  {
    var s1 := KeyReleased(Init(), SPACE);
    PressAsWrittenAgrees(s1, 0, 0, simplify);
    var s2 := MousePressed(s1, 0, 0, simplify);
    assert |s2.lines| == 1 && |s2.edges| == 1;
    var s3 := KeyReleased(s2, KEY_DEL);
    assert s3.lines == [];
    PressAsWrittenAgrees(s3, 1, 1, simplify);
    assert [] + [Point(1, 1)] == [Point(1, 1)];
  }

  // ---------------------------------------------------------------------------
  // The edge/line count invariant

  /** A press keeps the invariant. */
  lemma PressPreservesInv(s: Author, x: int, y: int, simplify: Polyline -> Polyline)
    requires Inv(s)
    ensures Inv(MousePressed(s, x, y, simplify))
  {
    if s.isEditMode {
      PressExtendsAndCommits(s, x, y, simplify);
    }
  }

  lemma StepPreservesInv(s: Author, e: Event, simplify: Polyline -> Polyline)
    requires Inv(s)
    ensures Inv(Step(s, e, simplify))
  {
    match e
    case KeyRelease(key) =>
    case MousePress(x, y) => PressPreservesInv(s, x, y, simplify);
  }

  /** After any sequence of key and mouse events every polyline still has an
      edge for it. */
  lemma {:induction false} RunPreservesInv(s: Author, events: seq<Event>, simplify: Polyline -> Polyline)
    requires Inv(s)
    ensures Inv(Run(s, events, simplify))
    decreases |events|
  {
    if events != [] {
      StepPreservesInv(s, events[0], simplify);
      RunPreservesInv(Step(s, events[0], simplify), events[1..], simplify);
    }
  }

  /** Equality of the counts is not kept: two presses in one stroke give one
      polyline and two edges. */
  lemma EdgesOutnumberLines(simplify: Polyline -> Polyline)
    ensures var r := Run(Init(), [KeyRelease(SPACE), MousePress(0, 0), MousePress(1, 1)], simplify);
      |r.lines| == 1 && |r.edges| == 2
  {
    var events := [KeyRelease(SPACE), MousePress(0, 0), MousePress(1, 1)];
    var s1 := KeyReleased(Init(), SPACE);
    var s2 := MousePressed(s1, 0, 0, simplify);
    var s3 := MousePressed(s2, 1, 1, simplify);
    assert |s2.lines| == 1 && |s2.edges| == 1;
    assert !StartsPolyline(s2);
    assert |s3.lines| == 1 && |s3.edges| == 2;
    assert events[1..][1..][1..] == [];
    assert Run(s3, [], simplify) == s3;
    assert Run(s2, events[1..][1..], simplify) == s3;
    assert Run(s1, events[1..], simplify) == s3;
  }

  // ---------------------------------------------------------------------------
  // Loading

  /** The number of edges the load commits for some text lines: one per pair of
      tokens of each line, counting an unpaired last token as a pair. */
  function Commits(texts: seq<string>): (n: nat)
    ensures n >= |texts|
  {
    if texts == [] then 0 else (|Text.Split(texts[0], ',')| + 1) / 2 + Commits(texts[1..])
  }

  /** The tokens of one text line keep the number of polylines and every
      polyline but the last, and commit one edge per pair of tokens behind the
      existing edges. */
  lemma {:induction false} LoadTokensShape(s: Author, tokens: seq<string>, simplify: Polyline -> Polyline)
    requires |s.lines| > 0
    ensures var r := LoadTokens(s, tokens, simplify);
      && |r.lines| == |s.lines| && DropLast(r.lines) == DropLast(s.lines)
      && |r.edges| == |s.edges| + (|tokens| + 1) / 2 && r.edges[..|s.edges|] == s.edges
      && SameFlags(r, s)
    decreases |tokens|
  {
    if tokens != [] {
      var s2 := LoadPair(s, tokens, simplify);
      assert DropLast(s2.lines) == DropLast(s.lines);
      LoadTokensShape(s2, Codec.Drop2(tokens), simplify);
      var r := LoadTokens(s2, Codec.Drop2(tokens), simplify);
      assert r.edges[..|s.edges|] == r.edges[..|s2.edges|][..|s.edges|];
    }
  }

  /** When a text line has at least one token, its load ends with a commit:
      the last edge holds the vertices of the last polyline. */
  lemma {:induction false} LoadTokensEndsCommitted(s: Author, tokens: seq<string>, simplify: Polyline -> Polyline)
    requires |s.lines| > 0 && tokens != []
    ensures var r := LoadTokens(s, tokens, simplify);
      |r.lines| > 0 && |r.edges| > 0 && Last(r.edges).vertices == Last(r.lines)
    decreases |tokens|
  {
    var s2 := LoadPair(s, tokens, simplify);
    LoadTokensShape(s, tokens, simplify);
    if Codec.Drop2(tokens) != [] {
      LoadTokensEndsCommitted(s2, Codec.Drop2(tokens), simplify);
    }
  }

  /** One text line adds one polyline behind the existing ones and commits one
      edge per pair of its tokens behind the existing edges. */
  lemma LoadTextLineShape(s: Author, text: string, simplify: Polyline -> Polyline)
    ensures var r := LoadTextLine(s, text, simplify);
      && |r.lines| == |s.lines| + 1 && r.lines[..|s.lines|] == s.lines
      && |r.edges| == |s.edges| + (|Text.Split(text, ',')| + 1) / 2 && r.edges[..|s.edges|] == s.edges
      && SameFlags(r, s)
  {
    var s0 := s.(lines := s.lines + [[]]);
    LoadTokensShape(s0, Text.Split(text, ','), simplify);
    var r := LoadTextLine(s, text, simplify);
    assert DropLast(s0.lines) == s.lines;
    assert r.lines[..|s.lines|] == DropLast(r.lines);
  }

  /** Loading text lines adds one polyline per text line behind the existing
      ones and commits Commits(texts) edges behind the existing edges. */
  lemma {:induction false} LoadTextLinesEffect(s: Author, texts: seq<string>, simplify: Polyline -> Polyline)
    ensures var r := LoadTextLines(s, texts, simplify);
      && |r.lines| == |s.lines| + |texts| && r.lines[..|s.lines|] == s.lines
      && |r.edges| == |s.edges| + Commits(texts) && r.edges[..|s.edges|] == s.edges
      && SameFlags(r, s)
    decreases |texts|
  {
    if texts != [] {
      var s1 := LoadTextLine(s, texts[0], simplify);
      LoadTextLineShape(s, texts[0], simplify);
      LoadTextLinesEffect(s1, texts[1..], simplify);
      var r := LoadTextLines(s1, texts[1..], simplify);
      assert r == LoadTextLines(s, texts, simplify);
      PrefixOfPrefix(r.lines, s1.lines, s.lines);
      PrefixOfPrefix(r.edges, s1.edges, s.edges);
    }
  }

  /** A prefix of a prefix is a prefix. */
  lemma PrefixOfPrefix<T>(c: seq<T>, b: seq<T>, a: seq<T>)
    requires |a| <= |b| <= |c| && c[..|b|] == b && b[..|a|] == a
    ensures c[..|a|] == a
  {
    assert c[..|a|] == c[..|b|][..|a|];
  }

  /** Loading keeps the invariant; a missing file changes nothing; otherwise
      the lines become one polyline per text line of the file and the edges of
      before are kept with the new ones behind them. */
  lemma LoadPreservesInv(s: Author, file: Option<string>, simplify: Polyline -> Polyline)
    requires Inv(s)
    ensures var r := LoadLinesFromFile(s, file, simplify);
      && Inv(r)
      && (file.None? ==> r == s)
      && (file.Some? ==>
            && |r.lines| == |Codec.FileLines(file.value)|
            && |r.edges| >= |s.edges| + |r.lines|
            && r.edges[..|s.edges|] == s.edges)
  {
    if file.Some? {
      LoadTextLinesEffect(s.(lines := []), Codec.FileLines(file.value), simplify);
    }
  }

  /** simplify leaves the polyline base followed by any prefix of p as it is:
      the load then never moves a vertex it has read. */
  ghost predicate KeepsPrefixes(simplify: Polyline -> Polyline, base: Polyline, p: Polyline)
  {
    forall k | 0 <= k <= |p| :: simplify(base + p[..k]) == base + p[..k]
  }

  /** KeepsPrefixes at the empty prefix. */
  lemma KeepsBase(simplify: Polyline -> Polyline, base: Polyline, read: Polyline)
    requires KeepsPrefixes(simplify, base, read)
    ensures simplify(base) == base
  {
    assert base + read[..0] == base;
  }

  /** KeepsPrefixes moves one vertex from what is read onto the base. */
  lemma KeepsShift(simplify: Polyline -> Polyline, base: Polyline, v: Point, rest: Polyline)
    requires KeepsPrefixes(simplify, base, [v] + rest)
    ensures simplify(base + [v]) == base + [v]
    ensures KeepsPrefixes(simplify, base + [v], rest)
  {
    var read := [v] + rest;
    assert base + read[..1] == base + [v];
    forall k | 0 <= k <= |rest|
      ensures simplify(base + [v] + rest[..k]) == base + [v] + rest[..k]
    {
      assert read[..k + 1] == [v] + rest[..k];
      assert base + read[..k + 1] == base + [v] + rest[..k];
    }
  }

  /** One pass of the inner loop under KeepsPrefixes: the vertex read (if
      any) lands on the last polyline, simplification leaves it there, and
      the rest of the tokens meet the premise again. */
  lemma LoadPairDecodes(s: Author, tokens: seq<string>, simplify: Polyline -> Polyline)
    requires |s.lines| > 0 && tokens != []
    requires KeepsPrefixes(simplify, Last(s.lines), Codec.DecodePairs(tokens))
    ensures var s2 := LoadPair(s, tokens, simplify);
      var rest := Codec.DecodePairs(Codec.Drop2(tokens));
      && |s2.lines| > 0
      && DropLast(s2.lines) == DropLast(s.lines)
      && Last(s2.lines) + rest == Last(s.lines) + Codec.DecodePairs(tokens)
      && KeepsPrefixes(simplify, Last(s2.lines), rest)
  {
    var base := Last(s.lines);
    var rest := Codec.DecodePairs(Codec.Drop2(tokens));
    var s1 := ReadPair(s, tokens);
    if tokens[0] != "" && |tokens| >= 2 {
      var v := Point(Codec.ToCoord(tokens[0]), Codec.ToCoord(tokens[1]));
      assert Codec.DecodePairs(tokens) == [v] + rest;
      assert Last(s1.lines) == base + [v];
      KeepsShift(simplify, base, v, rest);
      AppendAfterOne(base, base + [v], base + [v] + rest, v, rest);
    } else {
      assert Codec.DecodePairs(tokens) == rest;
      assert s1 == s;
      KeepsBase(simplify, base, rest);
    }
  }

  /** With a simplification that keeps the last polyline followed by each
      prefix of what is read, the tokens of a line add exactly the vertices
      DecodePairs reads from them. */
  lemma {:induction false} LoadTokensDecodes(s: Author, tokens: seq<string>, simplify: Polyline -> Polyline)
    requires |s.lines| > 0
    requires KeepsPrefixes(simplify, Last(s.lines), Codec.DecodePairs(tokens))
    ensures LoadTokens(s, tokens, simplify).lines == DropLast(s.lines) + [Last(s.lines) + Codec.DecodePairs(tokens)]
    decreases |tokens|
  {
    if tokens == [] {
      assert Last(s.lines) + [] == Last(s.lines);
      assert DropLast(s.lines) + [Last(s.lines)] == s.lines;
    } else {
      var s2 := LoadPair(s, tokens, simplify);
      LoadPairDecodes(s, tokens, simplify);
      LoadTokensDecodes(s2, Codec.Drop2(tokens), simplify);
    }
  }

  /** With a simplification that keeps each prefix of what is read, one text
      line adds the polyline DecodeLine reads from it. */
  lemma LoadTextLineDecodes(s: Author, text: string, simplify: Polyline -> Polyline)
    requires KeepsPrefixes(simplify, [], Codec.DecodeLine(text))
    ensures LoadTextLine(s, text, simplify).lines == s.lines + [Codec.DecodeLine(text)]
  {
    var s0 := s.(lines := s.lines + [[]]);
    var tokens := Text.Split(text, ',');
    assert DropLast(s0.lines) == s.lines && Last(s0.lines) == [];
    LoadTokensDecodes(s0, tokens, simplify);
    assert [] + Codec.DecodePairs(tokens) == Codec.DecodeLine(text);
  }

  lemma {:induction false} LoadTextLinesDecodes(s: Author, texts: seq<string>, simplify: Polyline -> Polyline)
    requires forall i | 0 <= i < |texts| :: KeepsPrefixes(simplify, [], Codec.DecodeLine(texts[i]))
    ensures LoadTextLines(s, texts, simplify).lines == s.lines + Codec.DecodeLines(texts)
    decreases |texts|
  {
    if texts == [] {
      assert s.lines + [] == s.lines;
    } else {
      var s1 := LoadTextLine(s, texts[0], simplify);
      var r := LoadTextLines(s1, texts[1..], simplify);
      assert LoadTextLines(s, texts, simplify) == r;
      LoadTextLineDecodes(s, texts[0], simplify);
      assert forall i | 0 <= i < |texts[1..]| :: texts[1..][i] == texts[i + 1];
      LoadTextLinesDecodes(s1, texts[1..], simplify);
      AppendAfterOne(s.lines, s1.lines, r.lines, Codec.DecodeLine(texts[0]), Codec.DecodeLines(texts[1..]));
    }
  }

  lemma AppendAfterOne<T>(a: seq<T>, b: seq<T>, c: seq<T>, d: T, rest: seq<T>)
    requires b == a + [d] && c == b + rest
    ensures c == a + ([d] + rest)
  {
  }

  /** The premise of LoadTextLinesDecodes holds for every text line of a
      saved file. */
  lemma SavedTextKeepsPrefixes(lines: seq<Polyline>, texts: seq<string>, simplify: Polyline -> Polyline)
    requires forall i, k | 0 <= i < |lines| && 0 <= k <= |lines[i]| :: simplify(lines[i][..k]) == lines[i][..k]
    requires texts == Codec.FileLines(Codec.EncodeText(lines))
    ensures forall i | 0 <= i < |texts| :: KeepsPrefixes(simplify, [], Codec.DecodeLine(texts[i]))
  {
    Codec.FileLinesOfSaved(lines);
    forall i | 0 <= i < |texts|
      ensures KeepsPrefixes(simplify, [], Codec.DecodeLine(texts[i]))
    {
      assert texts[i] == Codec.EncodeLine(lines[i]);
      SavedLineKeepsPrefixes(lines[i], simplify);
    }
  }

  lemma SavedLineKeepsPrefixes(p: Polyline, simplify: Polyline -> Polyline)
    requires forall k | 0 <= k <= |p| :: simplify(p[..k]) == p[..k]
    ensures KeepsPrefixes(simplify, [], Codec.DecodeLine(Codec.EncodeLine(p)))
  {
    Codec.DecodeEncodeLine(p);
    forall k | 0 <= k <= |p|
      ensures simplify([] + p[..k]) == [] + p[..k]
    {
      assert [] + p[..k] == p[..k];
    }
  }

  /** With a simplification that keeps every prefix of each saved polyline,
      loading the file that saving the lines wrote gives back exactly those
      lines, in order. */
  lemma LoadSavedFile(s: Author, lines: seq<Polyline>, simplify: Polyline -> Polyline)
    requires forall i, k | 0 <= i < |lines| && 0 <= k <= |lines[i]| :: simplify(lines[i][..k]) == lines[i][..k]
    ensures LoadLinesFromFile(s, Some(Codec.EncodeText(lines)), simplify).lines == lines
  {
    var texts := Codec.FileLines(Codec.EncodeText(lines));
    SavedTextKeepsPrefixes(lines, texts, simplify);
    LoadTextLinesDecodes(s.(lines := []), texts, simplify);
    Codec.DecodeFileRoundTrip(lines);
    assert [] + Codec.DecodeFile(Codec.EncodeText(lines)) == lines;
  }
}
