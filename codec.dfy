/** The collider text format. Saving writes one text line per polyline, holding
    `x,y,` for each vertex and ending in a newline; loading splits the file into
    text lines, splits each line at commas and reads the tokens in pairs. */
module Codec {

  import opened Wrappers
  import opened Geometry
  import Text

  /** The text written for one vertex: `x,y,`. */
  function VertexText(v: Point): string
  {
    Text.IntToString(v.x) + "," + Text.IntToString(v.y) + ","
  }

  /** The text line of one polyline, without its newline. */
  function EncodeLine(p: Polyline): string
  {
    if p == [] then "" else VertexText(p[0]) + EncodeLine(p[1..])
  }

  /** The whole file: each polyline's text line followed by a newline. */
  function EncodeText(lines: seq<Polyline>): (text: string)
    ensures (text == "") == (lines == [])
    ensures lines != [] ==> text[|text| - 1] == '\n'
  {
    if lines == [] then "" else EncodeLine(lines[0]) + "\n" + EncodeText(lines[1..])
  }

  /** The text lines of the file, one per polyline. */
  function EncodeLines(lines: seq<Polyline>): (texts: seq<string>)
  {
    seq(|lines|, i requires 0 <= i < |lines| => EncodeLine(lines[i]))
  }

  /** The coordinate tokens a polyline is written as: x and y of every vertex. */
  function Tokens(p: Polyline): (tokens: seq<string>)
    ensures |tokens| == 2 * |p|
  {
    if p == [] then [] else [Text.IntToString(p[0].x), Text.IntToString(p[0].y)] + Tokens(p[1..])
  }

  /** The tokens hold, for the k-th vertex, its x at index 2k and its y at
      index 2k + 1. */
  lemma {:induction false} TokensAt(p: Polyline, k: nat)
    requires k < |p|
    ensures Tokens(p)[2 * k] == Text.IntToString(p[k].x)
    ensures Tokens(p)[2 * k + 1] == Text.IntToString(p[k].y)
    decreases k
  {
    var x, y := Text.IntToString(p[0].x), Text.IntToString(p[0].y);
    var tail := Tokens(p[1..]);
    assert Tokens(p) == [x, y] + tail;
    if k == 0 {
      PairIndex(x, y, tail, 0);
      PairIndex(x, y, tail, 1);
    } else {
      TokensAt(p[1..], k - 1);
      assert p[1..][k - 1] == p[k];
      PairIndex(x, y, tail, 2 * k);
      PairIndex(x, y, tail, 2 * k + 1);
    }
  }

  /** Indexing past a pair at the front. */
  lemma PairIndex<T>(a: T, b: T, tail: seq<T>, i: int)
    requires 0 <= i < |tail| + 2
    ensures ([a, b] + tail)[i] == if i == 0 then a else if i == 1 then b else tail[i - 2]
  {
  }

  /** The coordinate read from a token: the integer it spells when it is an
      optionally minus-signed run of decimal digits, and 0 otherwise. The
      source's ofToFloat also reads the leading number of tokens such as
      `12.0`, `+3`, ` 7` or `1e+06`; this reading gives those 0. The encoder
      writes only the first form. */
  function ToCoord(token: string): int
  {
    match Text.ParseInt(token)
    case Some(n) => n
    case None => 0
  }

  /** The tokens after the pair at the front (the loop's `j += 2`). */
  function Drop2(tokens: seq<string>): (rest: seq<string>)
    ensures |rest| == if |tokens| >= 2 then |tokens| - 2 else 0
  {
    if |tokens| >= 2 then tokens[2..] else []
  }

  /** The vertices read from the tokens of one text line as the source reads
      them: for each even index j whose token is non-empty, the pair
      (tokens[j], tokens[j+1]). None where tokens[j+1] lies past the end of the
      token vector, which the source reads regardless. */
  function DecodePairsAsWritten(tokens: seq<string>): (r: Option<Polyline>)
    ensures r.Some? ==> 2 * |r.value| <= |tokens|
    decreases |tokens|
  {
    if tokens == [] then
      Some([])
    else if tokens[0] != "" && |tokens| < 2 then
      None
    else
      match DecodePairsAsWritten(Drop2(tokens))
      case None => None
      case Some(rest) =>
        if tokens[0] != "" then Some([Point(ToCoord(tokens[0]), ToCoord(tokens[1]))] + rest)
        else Some(rest)
  }

  /** The same reading with the end of the token vector respected: a non-empty
      x token with no y after it ends the line without adding a vertex. */
  function DecodePairs(tokens: seq<string>): Polyline
    decreases |tokens|
  {
    if tokens == [] then
      []
    else if tokens[0] != "" && |tokens| >= 2 then
      [Point(ToCoord(tokens[0]), ToCoord(tokens[1]))] + DecodePairs(Drop2(tokens))
    else
      DecodePairs(Drop2(tokens))
  }

  function DecodeLineAsWritten(line: string): Option<Polyline>
  {
    DecodePairsAsWritten(Text.Split(line, ','))
  }

  function DecodeLine(line: string): Polyline
  {
    DecodePairs(Text.Split(line, ','))
  }

  /** One polyline for every text line. The load's test that the split of a
      line is non-empty always passes, because splitting yields at least one
      piece (Text.Split). */
  function DecodeLines(texts: seq<string>): (lines: seq<Polyline>)
    ensures |lines| == |texts|
  {
    if texts == [] then [] else [DecodeLine(texts[0])] + DecodeLines(texts[1..])
  }

  /** The file read line by line: the getline loop yields the pieces of the
      text between newlines, including the empty piece after a final newline. */
  function DecodeText(text: string): (lines: seq<Polyline>)
    ensures |lines| == Text.Count(text, '\n') + 1
  {
    DecodeLines(Text.Split(text, '\n'))
  }

  // ---------------------------------------------------------------------------
  // Format of the encoder's output

  lemma {:induction false} EncodeLineNoNewline(p: Polyline)
    ensures '\n' !in EncodeLine(p)
    decreases |p|
  {
    if p != [] {
      EncodeLineNoNewline(p[1..]);
      assert '\n' !in Text.IntToString(p[0].x);
      assert '\n' !in Text.IntToString(p[0].y);
    }
  }

  lemma {:induction false} EncodeLineIsJoin(p: Polyline)
    ensures EncodeLine(p) == Text.Join(Tokens(p) + [""], ',')
    decreases |p|
  {
    if p == [] {
      assert Tokens(p) + [""] == [""];
    } else {
      var dx, dy := Text.IntToString(p[0].x), Text.IntToString(p[0].y);
      var rest := Tokens(p[1..]) + [""];
      var tail := Text.Join(rest, ',');
      assert Text.Join(Tokens(p) + [""], ',') == dx + [','] + (dy + [','] + tail) by {
        assert Tokens(p) + [""] == [dx] + ([dy] + rest);
        assert ([dx] + ([dy] + rest))[1..] == [dy] + rest;
        assert ([dy] + rest)[1..] == rest;
      }
      assert EncodeLine(p) == dx + [','] + dy + [','] + tail by {
        EncodeLineIsJoin(p[1..]);
      }
      Regroup(dx, [','], dy, [','], tail);
    }
  }

  /** Regrouping a concatenation of five strings. */
  lemma Regroup(a: string, b: string, c: string, d: string, e: string)
    ensures a + b + c + d + e == a + b + (c + d + e)
  {
  }

  /** An encoded polyline of n vertices splits into 2n + 1 tokens: the n
      coordinate pairs in order and one empty token after the last comma. */
  lemma EncodeLineTokens(p: Polyline)
    ensures Text.Split(EncodeLine(p), ',') == Tokens(p) + [""]
    ensures |Text.Split(EncodeLine(p), ',')| == 2 * |p| + 1
  {
    EncodeLineIsJoin(p);
    var pieces := Tokens(p) + [""];
    forall i | 0 <= i < |pieces| ensures ',' !in pieces[i] {
      TokenChars(p, i);
    }
    Text.SplitJoin(pieces, ',');
  }

  lemma {:induction false} TokenChars(p: Polyline, i: int)
    requires 0 <= i < |Tokens(p) + [""]|
    ensures ',' !in (Tokens(p) + [""])[i]
    ensures i < |Tokens(p)| ==> (Tokens(p) + [""])[i] != ""
    decreases |p|
  {
    if i >= 2 && p != [] {
      var rest := Tokens(p[1..]) + [""];
      assert (Tokens(p) + [""])[i] == rest[i - 2];
      TokenChars(p[1..], i - 2);
    }
  }

  // ---------------------------------------------------------------------------
  // Line round trip

  lemma {:induction false} DecodePairsTokens(p: Polyline)
    ensures DecodePairs(Tokens(p) + [""]) == p
    ensures DecodePairsAsWritten(Tokens(p) + [""]) == Some(p)
    decreases |p|
  {
    var t := Tokens(p) + [""];
    if p == [] {
      assert t == [""];
      assert Drop2(t) == [];
    } else {
      var dx, dy := Text.IntToString(p[0].x), Text.IntToString(p[0].y);
      assert t == [dx, dy] + (Tokens(p[1..]) + [""]);
      assert Drop2(t) == Tokens(p[1..]) + [""];
      DecodePairsTokens(p[1..]);
      Text.ParseIntToString(p[0].x);
      Text.ParseIntToString(p[0].y);
      assert [p[0]] + p[1..] == p;
    }
  }

  /** Decoding an encoded text line gives back the polyline's vertices in order. */
  lemma DecodeEncodeLine(p: Polyline)
    ensures DecodeLine(EncodeLine(p)) == p
  {
    EncodeLineTokens(p);
    DecodePairsTokens(p);
  }

  /** On the encoder's output the source's read of tokens[j+1] never leaves the
      token vector, and its reading recovers the polyline. */
  lemma EncodedLineIsPaired(p: Polyline)
    ensures DecodeLineAsWritten(EncodeLine(p)) == Some(p)
  {
    EncodeLineTokens(p);
    DecodePairsTokens(p);
  }

  // ---------------------------------------------------------------------------
  // The source's token reading against the bounds-respecting one

  /** The source's reading is undefined exactly when the line has an odd number
      of tokens and the last one is not empty. */
  lemma {:induction false} AsWrittenFaultIff(tokens: seq<string>)
    ensures DecodePairsAsWritten(tokens).None? <==> |tokens| % 2 == 1 && tokens[|tokens| - 1] != ""
    decreases |tokens|
  {
    if |tokens| == 1 {
      assert Drop2(tokens) == [];
    } else if |tokens| == 2 {
      assert Drop2(tokens) == [];
      AsWrittenStep(tokens);
    } else if |tokens| > 2 {
      var rest := Drop2(tokens);
      AsWrittenFaultIff(rest);
      AsWrittenStep(tokens);
      assert |rest| == |tokens| - 2;
      ParityStep(|tokens|);
      assert rest[|rest| - 1] == tokens[|tokens| - 1];
    }
  }

  lemma ParityStep(n: nat)
    requires n >= 2
    ensures (n % 2 == 1) == ((n - 2) % 2 == 1)
  {
  }

  /** Past the first pair, the source's reading fails exactly when the
      reading of the remaining tokens does. */
  lemma AsWrittenStep(tokens: seq<string>)
    requires |tokens| >= 2
    ensures DecodePairsAsWritten(tokens).None? <==> DecodePairsAsWritten(Drop2(tokens)).None?
  {
  }

  /** Wherever the source's reading is defined, the two readings agree. */
  lemma {:induction false} AsWrittenAgrees(tokens: seq<string>)
    requires DecodePairsAsWritten(tokens).Some?
    ensures DecodePairsAsWritten(tokens).value == DecodePairs(tokens)
    decreases |tokens|
  {
    if tokens != [] {
      AsWrittenAgrees(Drop2(tokens));
    }
  }

  /** The line "1,2,3" ends with an x that has no y: the source reads past the
      end of its token vector, the corrected reading keeps the vertex (1, 2). */
  lemma UnpairedLineFaults()
    ensures DecodeLineAsWritten("1,2,3") == None
    ensures DecodeLine("1,2,3") == [Point(1, 2)]
  {
    Text.SplitCons("1", "2,3", ',');
    Text.SplitCons("2", "3", ',');
    Text.SplitNoSep("3", ',');
    assert "1,2,3" == "1" + [','] + "2,3";
    assert "2,3" == "2" + [','] + "3";
    var t := Text.Split("1,2,3", ',');
    assert t == ["1", "2", "3"];
    assert Drop2(t) == ["3"];
    assert Text.ParseInt("1") == Some(1);
    assert Text.ParseInt("2") == Some(2);
  }

  // ---------------------------------------------------------------------------
  // File round trip

  lemma {:induction false} EncodeTextIsJoin(lines: seq<Polyline>)
    ensures EncodeText(lines) == Text.Join(EncodeLines(lines) + [""], '\n')
    decreases |lines|
  {
    if lines != [] {
      EncodeTextIsJoin(lines[1..]);
      var texts := EncodeLines(lines) + [""];
      assert texts[1..] == EncodeLines(lines[1..]) + [""];
    }
  }

  /** The text lines read back from a saved file are the polylines' text lines
      followed by one empty line: the piece after the final newline. */
  lemma SplitEncodeText(lines: seq<Polyline>)
    ensures Text.Split(EncodeText(lines), '\n') == EncodeLines(lines) + [""]
  {
    EncodeTextIsJoin(lines);
    var texts := EncodeLines(lines) + [""];
    forall i | 0 <= i < |texts| ensures '\n' !in texts[i] {
      if i < |lines| {
        EncodeLineNoNewline(lines[i]);
      }
    }
    Text.SplitJoin(texts, '\n');
  }

  /** Decoding the text lines of a list of polylines gives the list back. */
  lemma {:induction false} DecodeLinesRoundTrip(lines: seq<Polyline>)
    ensures DecodeLines(EncodeLines(lines)) == lines
    decreases |lines|
  {
    if lines != [] {
      var texts := EncodeLines(lines);
      assert texts[0] == EncodeLine(lines[0]);
      assert texts[1..] == EncodeLines(lines[1..]);
      DecodeLinesRoundTrip(lines[1..]);
      DecodeEncodeLine(lines[0]);
      assert [lines[0]] + lines[1..] == lines;
    }
  }

  lemma {:induction false} DecodeLinesAppend(a: seq<string>, b: seq<string>)
    ensures DecodeLines(a + b) == DecodeLines(a) + DecodeLines(b)
    decreases |a|
  {
    if a == [] {
      assert a + b == b;
    } else {
      var head := [DecodeLine(a[0])];
      assert (a + b)[0] == a[0];
      assert (a + b)[1..] == a[1..] + b;
      DecodeLinesAppend(a[1..], b);
      calc {
        DecodeLines(a + b);
        head + DecodeLines(a[1..] + b);
        head + (DecodeLines(a[1..]) + DecodeLines(b));
        head + DecodeLines(a[1..]) + DecodeLines(b);
        DecodeLines(a) + DecodeLines(b);
      }
    }
  }

  /** Reading a saved file gives back every polyline in order, followed by one
      empty polyline decoded from the empty piece after the final newline. */
  lemma DecodeTextRoundTrip(lines: seq<Polyline>)
    ensures DecodeText(EncodeText(lines)) == lines + [[]]
  {
    SplitEncodeText(lines);
    DecodeLinesAppend(EncodeLines(lines), [""]);
    DecodeLinesRoundTrip(lines);
    assert Text.Split("", ',') == [""];
    assert Drop2([""]) == [];
  }

  /** As written, the loop `while (!fin.eof()) { getline(fin, ptStr); ... }`
      also yields the empty piece after the final newline, and saving the
      lines read that way writes one more empty text line than before: every
      load/save cycle grows the file by one line. */
  lemma ReloadGrowsFile(lines: seq<Polyline>)
    ensures EncodeText(DecodeText(EncodeText(lines))) == EncodeText(lines) + "\n"
  {
    DecodeTextRoundTrip(lines);
    EncodeTextSnoc(lines, []);
    assert EncodeText(lines) + EncodeLine([]) + "\n" == EncodeText(lines) + "\n";
  }

  /** The text lines the `while (getline(fin, ptStr))` idiom yields: the pieces
      between newlines, without the empty piece after a final newline (or of
      an empty text), which that loop never reads. */
  function FileLines(text: string): (texts: seq<string>)
    ensures forall i :: 0 <= i < |texts| ==> '\n' !in texts[i]
    ensures |texts| == Text.Count(text, '\n') + 1 || |texts| == Text.Count(text, '\n')
    ensures texts == [] <==> text == ""
  {
    var pieces := Text.Split(text, '\n');
    Text.JoinSplit(text, '\n');
    if pieces[|pieces| - 1] == "" then pieces[..|pieces| - 1] else pieces
  }

  /** The text lines of a saved file are exactly those of its polylines. */
  lemma FileLinesOfSaved(lines: seq<Polyline>)
    ensures FileLines(EncodeText(lines)) == EncodeLines(lines)
  {
    SplitEncodeText(lines);
    var pieces := EncodeLines(lines) + [""];
    assert pieces[..|pieces| - 1] == EncodeLines(lines);
  }

  /** The file read with the getline idiom: one polyline per text line. */
  function DecodeFile(text: string): (lines: seq<Polyline>)
    ensures |lines| == |FileLines(text)|
  {
    DecodeLines(FileLines(text))
  }

  /** Reading a saved file with the getline idiom gives back exactly the
      polylines that were saved, for every list of polylines. */
  lemma DecodeFileRoundTrip(lines: seq<Polyline>)
    ensures DecodeFile(EncodeText(lines)) == lines
  {
    FileLinesOfSaved(lines);
    DecodeLinesRoundTrip(lines);
  }

  /** So a load/save cycle leaves the file as it was. */
  lemma ReloadKeepsFile(lines: seq<Polyline>)
    ensures EncodeText(DecodeFile(EncodeText(lines))) == EncodeText(lines)
  {
    DecodeFileRoundTrip(lines);
  }

  // ---------------------------------------------------------------------------
  // The save loop's steps

  lemma {:induction false} EncodeLineSnoc(p: Polyline, v: Point)
    ensures EncodeLine(p + [v]) == EncodeLine(p) + VertexText(v)
    decreases |p|
  {
    if p == [] {
      assert [v][1..] == [];
    } else {
      assert (p + [v])[1..] == p[1..] + [v];
      EncodeLineSnoc(p[1..], v);
    }
  }

  /** One pass of the save loop over the vertices of a polyline. */
  lemma EncodeLinePrefix(p: Polyline, j: nat)
    requires j < |p|
    ensures EncodeLine(p[..j + 1]) == EncodeLine(p[..j]) + VertexText(p[j])
  {
    assert p[..j + 1] == p[..j] + [p[j]];
    EncodeLineSnoc(p[..j], p[j]);
  }

  /** One pass of the save loop over the polylines. */
  lemma EncodeTextPrefix(lines: seq<Polyline>, i: nat)
    requires i < |lines|
    ensures EncodeText(lines[..i + 1]) == EncodeText(lines[..i]) + EncodeLine(lines[i]) + "\n"
  {
    assert lines[..i + 1] == lines[..i] + [lines[i]];
    EncodeTextSnoc(lines[..i], lines[i]);
  }

  lemma {:induction false} EncodeTextSnoc(lines: seq<Polyline>, p: Polyline)
    ensures EncodeText(lines + [p]) == EncodeText(lines) + EncodeLine(p) + "\n"
    decreases |lines|
  {
    if lines == [] {
      assert EncodeText([p]) == EncodeLine(p) + "\n" by {
        assert [p][1..] == [];
      }
      assert lines + [p] == [p];
    } else {
      var head := EncodeLine(lines[0]) + "\n";
      var rest := EncodeText(lines[1..]);
      assert EncodeText(lines + [p]) == head + EncodeText(lines[1..] + [p]) by {
        assert (lines + [p])[0] == lines[0];
        assert (lines + [p])[1..] == lines[1..] + [p];
      }
      EncodeTextSnoc(lines[1..], p);
      Assoc3(head, rest, EncodeLine(p), "\n");
    }
  }

  /** Regrouping a concatenation of four strings. */
  lemma Assoc3(a: string, b: string, c: string, d: string)
    ensures a + (b + c + d) == a + b + c + d
  {
  }
}
