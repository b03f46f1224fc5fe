# Collider authoring and sensor gravity of the particle-fluid installation

This project models the part of the installation's `ofApp` that has real
invariants. It covers three pieces:

- The collider editor, which is a state machine over four flags and two
  vectors. `isEditMode` says whether clicks author geometry. `drawing` and
  `pDrawing` decide whether a click starts a new polyline. `drawingGuide`
  turns the preview segment on and off. `lines` holds the authored
  polylines and `edges` holds the static edges built from them. The space
  key toggles edit mode. Delete and backspace undo the last line/edge pair.
  A click in edit mode may start a polyline, then adds a vertex to the last
  polyline, simplifies it and commits one new edge holding its vertices.
- The collider file, as text. Saving writes one text line per polyline,
  made of `x,y,` for each vertex and ending in a newline. Loading splits
  the file at newlines and each line at commas, reads the tokens in pairs,
  and commits one edge for every pair it visits.
- The sensor-to-gravity map. A reading is mapped linearly from
  `[sensorMin, sensorMax]` to `[-I, I]`, clamped to that range and negated.
  It becomes the horizontal gravity component; the vertical one is 0.

Layout:

- `wrappers.dfy` has `Option`.
- `geometry.dfy` has points, polylines, edges and the `back`/`pop_back` helpers.
- `text.dfy` has a comma/newline split that keeps empty pieces, its inverse
  join, and an exact decimal printer and parser for integer coordinates.
- `codec.dfy` has the file encoder and decoders and their round trips.
- `authoring.dfy` holds the editor's state as a value (`Author`) and every
  handler as a function on it. The properties of the editor are lemmas
  about these functions.
- `app.dfy` holds the class `OfApp`. It has the fields of `ofApp.h` and
  imperative methods that update them in place. Each method is proved to
  move the state exactly as the matching `Authoring` function does. Each
  method that saves is also proved to leave the collider file holding the
  encoding of `lines`.
- `gravity.dfy` has `ofMap` and the sensor map, over the reals.

`ofPolyline::simplify` is a library routine whose code is not part of this
model. It is a parameter of type `Polyline -> Polyline` (a constant of the
class) and nothing is assumed about it. The lemmas that need a property of
it state that property as a precondition.

The system's design description differs from the code in the places below.
The model follows the code in each of them:

- The description says `|lines| == |edges|` always. The code only keeps
  `|edges| >= |lines|`, because every click commits a further edge for the
  same polyline. `Authoring.EdgesOutnumberLines` shows that equality fails.
- The description says a reload rebuilds the edges from scratch. The code
  clears only `lines`, so the edges from before a reload survive it.
- The description says a click that starts a polyline does not add a
  vertex. The code adds the clicked vertex in both cases.
- The description commits one edge per loaded polyline. The code commits
  one edge per visited token pair, and also one for a trailing empty token.
- The description skips empty text lines, keeps only polylines with at
  least one point, and reads an empty file as no polylines. The code loads
  every text line it reads as a polyline and commits at least one edge for
  it, even when the line is empty (`Authoring.LoadTextLineShape`). The
  loop as written also reads an empty piece after the final newline, and
  one from an empty file. That extra piece is the third finding below: the
  model reads lines with the getline idiom instead, so an empty file gives
  no polylines.
- The description treats a malformed token as the end of a line's data.
  The code reads every token with `ofToFloat` and goes on with the next
  pair. The model does the same, reading such a token as 0 (see
  `Codec.ToCoord` under "Left out").

## Model

| member | source | states |
|---|---|---|
| App.OfApp.constructor | src/ofApp.h:18-30 | The app starts outside edit mode, with `drawing`, `pDrawing` and the guide off, `pGravitySelector` 0, and no lines or edges (`Authoring.Init`). |
| Authoring.Init | src/ofApp.h:19-30 | The initial state satisfies the invariant: no more lines than edges, and `pDrawing` false. |
| App.OfApp.KeyReleased | src/ofApp.cpp:63-79 | The new state is `Authoring.KeyReleased` of the old one. The file is rewritten with the encoding of the new lines exactly when an undo happened; otherwise it is untouched. `pDrawing` and `pGravitySelector` are outside its frame. A state with at least as many edges as lines and `pDrawing` false keeps both. |
| Authoring.SpaceToggles | src/ofApp.cpp:64-71 | Space flips edit mode and sets `drawing` to the new mode. It turns the guide off on entering edit mode and keeps it on leaving. Lines, edges and `pDrawing` are unchanged. |
| Authoring.UndoRemovesLast | src/ofApp.cpp:72-78 | In edit mode with lines and edges both non-empty, delete or backspace removes exactly the last of each and keeps every earlier one and all flags. Otherwise the state is unchanged. |
| Authoring.OtherKeysIgnored | src/ofApp.cpp:63-79 | Any key other than space, delete and backspace leaves the state unchanged. |
| App.OfApp.MousePressed | src/ofApp.cpp:81-92 | The new state is `Authoring.MousePressed` of the old one. In edit mode the file then holds the encoding of the new lines; outside it the file is untouched. A state with at least as many edges as lines and `pDrawing` false keeps both. |
| App.OfApp.PressInEditMode | src/ofApp.cpp:82-91 | Under the edit-mode guard, the new state is `Authoring.MousePressed` of the old one and the file holds the encoding of the new lines. |
| App.OfApp.StartPolylineIfNeeded | src/ofApp.cpp:83-86 | An empty polyline is pushed and `drawing` set to `pDrawing` exactly when they differ or there is no polyline (`Authoring.StartPolyline`); otherwise nothing changes. Afterwards there is a polyline. |
| App.OfApp.AddVertexToLast | src/ofApp.cpp:88 | The vertex is appended to the last polyline and nothing else changes (`Authoring.AddVertex`). |
| Authoring.PressAsWritten | src/ofApp.cpp:81-91 | The click as the code writes it. Outside edit mode it changes nothing. In edit mode, when it does not fault, it appends exactly one edge, holding the vertices of the last polyline. |
| Authoring.PressOutsideEditModeIgnored | src/ofApp.cpp:81-91 | A click outside edit mode changes nothing. |
| Authoring.PressExtendsAndCommits | src/ofApp.cpp:81-103 | In edit mode a click adds at most one polyline, and adds one exactly when `drawing != pDrawing` (or there is none). All earlier polylines are kept. The last polyline becomes `simplify` of its old vertices plus `(x, y)`. Exactly one edge is appended, holding those vertices. Afterwards `drawing == pDrawing` and the guide is on. |
| Authoring.FirstPressStartsPolyline | src/ofApp.cpp:64-90 | From a reachable state outside edit mode: after space, the first click starts a new polyline of the simplified clicked point, and the next click extends that same polyline. |
| Authoring.PressBeforeToggleIgnored | src/ofApp.h:19-21 | A click in the initial state changes nothing. |
| App.OfApp.CreateEdgeFromLine | src/ofApp.cpp:94-106 | The last polyline is replaced by its simplification. An edge copying its vertices is appended. The file then holds the encoding of the lines. |
| Authoring.PressPreservesInv | src/ofApp.cpp:81-103 | Every click keeps at least as many edges as lines, and `pDrawing` false. |
| Authoring.StepPreservesInv | src/ofApp.cpp:63-103 | Every key or click keeps at least as many edges as lines, and `pDrawing` false. |
| Authoring.RunPreservesInv | src/ofApp.cpp:63-103 | The invariant holds after any sequence of key and click events. |
| Authoring.EdgesOutnumberLines | src/ofApp.cpp:83-103 | Space and two clicks give one polyline and two edges, so equal counts are not kept. |
| App.OfApp.SaveLinesToFile | src/ofApp.cpp:154-162 | After the nested save loop, the file holds `Codec.EncodeText(lines)`. |
| Codec.EncodeText | src/ofApp.cpp:154-162 | The saved text is empty exactly when there are no polylines, and otherwise ends in a newline. |
| Codec.TokensAt | src/ofApp.cpp:155-159 | The coordinate tokens of a polyline are, for the k-th vertex, its x at index 2k and its y at index 2k+1. |
| Codec.EncodeLineTokens | src/ofApp.cpp:155-161 | A polyline of n vertices is written as a text line that splits at commas into 2n+1 tokens: its coordinates in order, then one empty token. |
| Codec.EncodeLineNoNewline | src/ofApp.cpp:158 | A polyline's text never contains a newline. |
| Codec.SplitEncodeText | src/ofApp.cpp:154-162 | The saved text, split at newlines, is the polylines' text lines in order followed by one empty piece. |
| Codec.DecodeText | src/ofApp.cpp:117-139 | Reading a text as the loop is written gives one polyline per newline-separated piece: one more than the number of newlines. |
| Codec.FileLines | src/ofApp.cpp:117-121 | The text lines the getline idiom reads. None holds a newline. There are as many as there are newlines, or one more. There are none exactly when the text is empty. |
| Codec.DecodeFile | src/ofApp.cpp:117-139 | Reading a text with the getline idiom gives one polyline per text line it reads. |
| Codec.DecodeLines | src/ofApp.cpp:123-127 | Decoding text lines gives one polyline per text line. |
| Codec.DecodePairsAsWritten | src/ofApp.cpp:129-136 | The token pairs read as the code reads them, `None` where it reads `pts[j+1]` past the end. When it stays in bounds it reads at most one vertex per two tokens. |
| Codec.DecodeEncodeLine | src/ofApp.cpp:124-136 | Decoding a polyline's text line gives back its vertices in order. |
| Codec.EncodedLineIsPaired | src/ofApp.cpp:129-135 | On encoder output the read of `pts[j+1]` never leaves the token vector, and the source's reading gives back the polyline. |
| Codec.AsWrittenFaultIff | src/ofApp.cpp:129-135 | The source's reading of a line reads past its tokens if and only if the line has an odd number of tokens and the last one is non-empty. |
| Codec.AsWrittenAgrees | src/ofApp.cpp:129-135 | Wherever the source's reading stays in bounds, it equals the bounds-respecting reading. |
| Codec.UnpairedLineFaults | src/ofApp.cpp:131-133 | The line `1,2,3` makes the source read past its tokens. The corrected reading gives `[(1, 2)]`. |
| Codec.DecodeLinesRoundTrip | src/ofApp.cpp:123-139 | Decoding the text lines of any list of polylines gives the list back. |
| Codec.DecodeTextRoundTrip | src/ofApp.cpp:117-139 | Reading a saved file as the loop is written gives every polyline back in order, followed by one empty polyline that comes from the empty piece after the final newline. |
| Codec.ReloadGrowsFile | src/ofApp.cpp:117-121 | As written, saving what was read from a saved file writes the old text plus one more newline. |
| Codec.FileLinesOfSaved | src/ofApp.cpp:117-121 | The getline idiom reads a saved file as exactly the text lines of its polylines. |
| Codec.DecodeFileRoundTrip | src/ofApp.cpp:117-139 | Reading a saved file with the getline idiom gives back exactly the saved polylines, for every list of polylines. |
| Codec.ReloadKeepsFile | src/ofApp.cpp:108-162 | With the getline idiom, saving what was read from a saved file writes the same text again. |
| App.OfApp.LoadTokens | src/ofApp.cpp:129-138 | The inner load loop moves the state as `Authoring.LoadTokens` does, and leaves the file holding the encoding of the lines. |
| App.OfApp.LoadTextLine | src/ofApp.cpp:124-139 | One pass of the outer load loop moves the state as `Authoring.LoadTextLine` does, and leaves the file holding the encoding of the lines. |
| App.OfApp.LoadOpenedFile | src/ofApp.cpp:113-140 | With the file open, the lines are cleared and the outer loop loads every text line the getline idiom reads (`Codec.FileLines`) in turn, as `Authoring.LoadTextLines` does. The file then holds the encoding of the lines. |
| App.OfApp.LoadLinesFromFile | src/ofApp.cpp:108-144 | The load moves the state as `Authoring.LoadLinesFromFile` does. Without a file nothing changes; otherwise the file ends up holding the encoding of the loaded lines. A state with at least as many edges as lines and `pDrawing` false keeps both. |
| Authoring.Commits | src/ofApp.cpp:123-138 | The number of edges a load commits is at least the number of text lines. |
| Authoring.LoadTokensShape | src/ofApp.cpp:129-138 | The tokens of one line commit ceil(n/2) edges for its n tokens behind the existing ones. They change only the last polyline and no flag. |
| Authoring.LoadTokensEndsCommitted | src/ofApp.cpp:129-138 | After a line with at least one token, the last edge holds exactly the vertices of the last polyline. |
| Authoring.LoadTextLineShape | src/ofApp.cpp:124-139 | One text line appends exactly one polyline and ceil(n/2) edges for its n tokens, keeping everything before them. |
| Authoring.LoadTextLinesEffect | src/ofApp.cpp:123-140 | Loading text lines appends one polyline per text line and `Commits` edges, keeping everything before them. |
| Authoring.LoadPreservesInv | src/ofApp.cpp:108-144 | A load keeps the invariant, and a missing file changes nothing. Otherwise `lines` becomes one polyline per text line of the file (`Codec.FileLines`), and the earlier edges are kept with at least one new edge per polyline behind them. |
| Authoring.LoadTokensDecodes | src/ofApp.cpp:129-138 | When `simplify` leaves the last polyline followed by each prefix of what is read unchanged, the tokens of a line append exactly the vertices `Codec.DecodePairs` reads from them to the last polyline, and change no other polyline. |
| Authoring.LoadTextLineDecodes | src/ofApp.cpp:124-139 | When `simplify` leaves each prefix of the decoded polyline unchanged, one text line appends exactly the polyline `Codec.DecodeLine` reads from it. |
| Authoring.LoadTextLinesDecodes | src/ofApp.cpp:123-139 | When `simplify` leaves each prefix of each decoded polyline unchanged, the loaded polylines are exactly the decoded text lines, behind the earlier ones. |
| Authoring.LoadSavedFile | src/ofApp.cpp:108-162 | When `simplify` leaves every prefix of each saved polyline unchanged, loading the file that saving wrote gives back exactly the saved lines. |
| Authoring.PressAsWrittenAgrees | src/ofApp.cpp:81-89 | The click as written calls `lines.back()` on an empty vector exactly in edit mode with `drawing == pDrawing` and no lines. In every other state it equals `Authoring.MousePressed`. |
| Authoring.PressAfterUndoingEverythingFaults | src/ofApp.cpp:72-88 | Space, click, delete, click: the second click as written calls `lines.back()` on an empty vector. The corrected click starts a new polyline. |
| Text.SplitJoin | src/ofApp.cpp:124 | Splitting at a separator undoes joining pieces that do not contain it. |
| Text.JoinSplit | src/ofApp.cpp:124 | Joining the pieces of a split gives back the original text. |
| Text.ParseIntToString | src/ofApp.cpp:132-133 | Parsing the printed text of a coordinate gives the coordinate back exactly. |
| Gravity.OfMap | src/ofApp.cpp:241 | `ofMap`: with clamping on, the result lies between the two output ends, whichever way round they are given. |
| Gravity.GravityFromSensor | src/ofApp.cpp:239-242 | The gravity of a reading is horizontal, and for a non-negative intensity its x component lies in `[-I, I]`. |
| Gravity.OfMapClamped | src/ofApp.cpp:241 | The clamped map lies in the output range. It equals the linear map wherever that is in range, and gives the range's ends at and beyond the input range's ends. |
| Gravity.LinearMonotone | src/ofApp.cpp:241 | The unclamped linear map is non-decreasing in the reading. |
| Gravity.GravityInRange | src/ofApp.cpp:240-242 | Gravity is horizontal with x in `[-I, I]`. A reading at or below `sensorMin` gives `+I`, and one at or above `sensorMax` gives `-I`. |
| Gravity.GravityLinearInside | src/ofApp.cpp:240-242 | Inside the sensor range, x falls linearly from `+I` to `-I`: it is `I - 2It` at fraction t of the way through the range. |
| Gravity.GravityNonIncreasing | src/ofApp.cpp:240-242 | A larger reading never gives a larger x component. |
| Gravity.GravityExampleEnds | src/ofApp.cpp:240-242 | For a `[0, 180]` range and intensity 2, a reading of 0 or below gives 2, and 180 or above gives -2. |
| Gravity.GravityExampleMiddle | src/ofApp.cpp:240-242 | For the same parameters, a reading of 90 gives 0. |

## Left out

- Rendering (`draw`, `displayReticle`, `displayColliders`) is left out. It is pixel output; the guide flag is modelled but nothing is drawn.
- The physics engine is left out: `box2d.init`, `setFPS`, `createBounds`, `update`, `newEdge->create`, `box2d.setGravity`, and the particle setup with its random spawning. It is a foreign engine plus randomness. An edge is modelled only as the vertex copy it is built from.
- Serial set-up, the message listener and the periodic `sendRequest` are left out. They are asynchronous transport.
- The parse of the sensor message (`ofToFloat`) is left out. Readings arrive as reals.
- Logging in `setGravityFromSensor` and in the save is left out.
- `setup` is left out: the initial `box2d.setGravity` and the call order of the start-up steps.
- The gravity-flip policy is left out. `isFlippingGravity`/`flipGravity` are declared in `ofApp.h` but have no body in this code.
- `loadJSON`/`saveJSON` and the parameter record are left out. They are configuration file I/O.
- Gravity: works over `real`, not 32-bit floats, and the epsilon test of `ofMap` for an empty input range is idealised to exact equality.
- Codec.ToCoord: coordinates are integers with an exact decimal print/parse pair, not floats in the stream's default formatting. The model's coordinates are therefore exact, which the source's are not. A token that is not an optionally minus-signed run of decimal digits (`12.0`, `+3`, ` 7`, `1e+06`, `abc`) reads as 0, where `ofToFloat` reads its leading number (12, 3, 7, 1000000, and 0 only for `abc`). So `Codec.DecodeLine("12.0,")` is `[(0, 0)]`, where the source gives the vertex (12, 0). The encoder writes only the digit form, so the round trips are unaffected.
- Text.Split: this is the behaviour assumed of `ofSplitString` (keep empty pieces; the empty text splits into one empty piece). The library's code is not part of this model.
- File mechanics are left out: `fstream` opening and closing, and the `ofFile::removeFile` failure branch of the save. The file is modelled as an optional text and every save succeeds. In openFrameworks `ofFile::removeFile` returns false when the file does not exist, so with no collider file on disk the source's save writes nothing, while the model's `App.OfApp.KeyReleased`, `MousePressed` and `CreateEdgeFromLine` turn a missing file (`None`) into the saved text. The `getline`/`eof` loop is taken to yield the pieces of the text between newlines (`Codec.DecodeText`); the model's load uses the corrected reading `Codec.FileLines`.
- Authoring.LoadTextLinesDecodes: proved only for a simplification that leaves each prefix of each decoded polyline unchanged, because `simplify` is a parameter whose code is not part of this model. A simplification that drops a vertex of a loaded polyline is not covered.
- Authoring.LoadSavedFile: proved only for a simplification that leaves every prefix of each saved polyline unchanged, for the same reason. A simplification that drops a saved vertex is not covered.
- Mouse buttons are not consulted, as in the source. Key codes use openFrameworks' values: 32 for space, 8 for `OF_KEY_BACKSPACE`, 127 for `OF_KEY_DEL`. Those constants are not part of this model's sources.
- Aliasing of polylines and edge handles is not modelled. The edge vectors hold values, not shared pointers.

## Findings

| source | as written | input that shows it | evidently intended | confidence | as-written member | corrected member |
|---|---|---|---|---|---|---|
| src/ofApp.cpp:83-88 | A click in edit mode with `drawing == pDrawing` calls `lines.back()` even when `lines` is empty. | Space, click, delete, click: the delete removes the only polyline, and the second click reads `back()` of an empty vector. | Start a new polyline whenever there is none to extend. | not executed | Authoring.PressAfterUndoingEverythingFaults | Authoring.PressExtendsAndCommits |
| src/ofApp.cpp:129-133 | The load reads `pts[j+1]` whenever `pts[j]` is non-empty, even when `j` is the last index. | The text line `1,2,3`, where the final `3` has no y token. | Read a vertex only when a y token follows. | not executed | Codec.UnpairedLineFaults | Codec.AsWrittenAgrees |
| src/ofApp.cpp:117-121 | `while (!fin.eof())` calls `getline` once more after the final newline and pushes the empty piece it gets, and does the same for an empty file. A saved file reads back with one extra empty polyline, which is then saved again. | Loading `1,2,\n` gives `[[(1, 2)], []]`; the next save writes `1,2,\n\n`. | Read lines with `while (getline(fin, ptStr))`, which yields no piece after a final newline, so a load/save cycle leaves the file unchanged. | not executed | Codec.ReloadGrowsFile | Codec.DecodeFileRoundTrip |

The class `App.OfApp` uses the corrected click (`Authoring.MousePressed`),
the corrected token reading (`j + 1 < |pts|`) and the corrected line reading
(`Codec.FileLines`). `Authoring.PressAsWritten`, `Codec.DecodePairsAsWritten`
and `Codec.DecodeText` keep the code as written. For the second
row, `Codec.AsWrittenFaultIff` characterises every input that faults, and
`Codec.DecodeEncodeLine` proves the corrected reading inverts the encoder.

For the third row, `Codec.DecodeTextRoundTrip` shows the extra empty
polyline. `Codec.ReloadKeepsFile` proves that with the corrected reading a
load/save cycle leaves the file as it was.
