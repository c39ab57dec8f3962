/** The index file: one JSON record a line, the versions first and the latest `Publish` last. */
module JsonLines {
  import opened Bytes
  import opened RegistryTypes
  import opened Strings
  import opened Wrappers

  const NEWLINE: Byte := 10

  datatype FormatError = InvalidIndexFile

  /** The JSON printers and parsers of the two records, which this model does not look into. */
  datatype Codec = Codec(
    printVersion: CrateVersion -> seq<Byte>, parseVersion: seq<Byte> -> Option<CrateVersion>,
    printPublish: Publish -> seq<Byte>, parsePublish: seq<Byte> -> Option<Publish>)

  predicate IsLine(bytes: seq<Byte>) {
    bytes != [] && NEWLINE !in bytes
  }

  /** What the file format needs of JSON: printed records are lines (section 7 of RFC 8259 has a newline
      escaped), parsers undo printers, and a printed `Publish` does not read as a version. */
  ghost predicate Faithful(codec: Codec) {
    (forall v: CrateVersion :: IsLine(codec.printVersion(v)) &&
                               codec.parseVersion(codec.printVersion(v)) == Some(v)) &&
    (forall p: Publish :: IsLine(codec.printPublish(p)) &&
                          codec.parseVersion(codec.printPublish(p)) == None &&
                          codec.parsePublish(codec.printPublish(p)) == Some(p))
  }

  /** Each line with the newline that ends it. */
  function Joined(lines: seq<seq<Byte>>): seq<Byte> {
    if lines == [] then []
    else Joined(lines[..|lines| - 1]) + (lines[|lines| - 1] + [NEWLINE])
  }

  function PrintedVersions(codec: Codec, versions: seq<CrateVersion>): (lines: seq<seq<Byte>>)
    ensures |lines| == |versions|
  {
    seq(|versions|, i requires 0 <= i < |versions| => codec.printVersion(versions[i]))
  }

  /** The bytes of an index file. */
  function Serialized(codec: Codec, versions: seq<CrateVersion>, publish: Option<Publish>): seq<Byte> {
    Joined(PrintedVersions(codec, versions)) +
    (if publish.None? then [] else codec.printPublish(publish.value) + [NEWLINE])
  }

  /** `json_lines.split(|&c| c == b'\n')`: the pieces between newlines, empty ones included. */
  function Pieces(bytes: seq<Byte>): seq<seq<Byte>>
    decreases |bytes|
  {
    var cut := SplitFirst(bytes, NEWLINE);
    if cut.None? then [bytes] else [cut.value.0] + Pieces(cut.value.1)
  }

  /** The records of some pieces, read from the front. */
  function Records(codec: Codec, pieces: seq<seq<Byte>>): Result<(seq<CrateVersion>, Option<Publish>), FormatError> {
    if pieces == [] then Ok(([], None))
    else
      var before, piece := Records(codec, pieces[..|pieces| - 1]), pieces[|pieces| - 1];
      if before.Err? || piece == [] then before
      else
        var version := codec.parseVersion(piece);
        if version.Some? then Ok((before.value.0 + [version.value], before.value.1))
        else
          var publish := codec.parsePublish(piece);
          if publish.Some? then Ok((before.value.0, publish)) else Err(InvalidIndexFile)
  }

  function Deserialized(codec: Codec, bytes: seq<Byte>): Result<(seq<CrateVersion>, Option<Publish>), FormatError> {
    Records(codec, Pieces(bytes))
  }

  method SerializeData(codec: Codec, versions: seq<CrateVersion>, publish: Option<Publish>)
    returns (jsonLines: seq<Byte>)
    ensures jsonLines == Serialized(codec, versions, publish)
    ensures Faithful(codec) ==> Deserialized(codec, jsonLines) == Ok((versions, publish))
  {
    jsonLines := [];
    ghost var printed := PrintedVersions(codec, versions);
    for i := 0 to |versions|
      invariant jsonLines == Joined(printed[..i])
    {
      assert printed[..i + 1][..i] == printed[..i];
      jsonLines := jsonLines + codec.printVersion(versions[i]);
      jsonLines := jsonLines + [NEWLINE];
    }
    assert printed[..|versions|] == printed;
    if publish.Some? {
      jsonLines := jsonLines + codec.printPublish(publish.value);
      jsonLines := jsonLines + [NEWLINE];
    }
    assert jsonLines == Serialized(codec, versions, publish);
    if Faithful(codec) {
      RoundTrip(codec, versions, publish);
    }
  }

  method DeserializeData(codec: Codec, jsonLines: seq<Byte>)
    returns (r: Result<(seq<CrateVersion>, Option<Publish>), FormatError>)
    ensures r == Deserialized(codec, jsonLines)
    ensures r.Ok? <==> AllReadable(codec, Pieces(jsonLines))
  {
    var versions: seq<CrateVersion>, publish := [], None;
    var pieces := Pieces(jsonLines);
    RecordsReadable(codec, pieces);
    for i := 0 to |pieces|
      invariant Records(codec, pieces[..i]) == Ok((versions, publish))
    {
      var line := pieces[i];
      assert pieces[..i + 1][..i] == pieces[..i];
      if line != [] {
        var version := codec.parseVersion(line);
        if version.Some? {
          versions := versions + [version.value];
        } else {
          var p := codec.parsePublish(line);
          if p.Some? {
            publish := p;
          } else {
            assert !Readable(codec, pieces[i]);
            assert Records(codec, pieces).error.InvalidIndexFile?;
            return Err(InvalidIndexFile);
          }
        }
      }
    }
    assert pieces[..|pieces|] == pieces;
    return Ok((versions, publish));
  }

  /** A piece the reader does not stop at. */
  predicate Readable(codec: Codec, piece: seq<Byte>) {
    piece == [] || codec.parseVersion(piece).Some? || codec.parsePublish(piece).Some?
  }

  predicate AllReadable(codec: Codec, pieces: seq<seq<Byte>>) {
    forall i | 0 <= i < |pieces| :: Readable(codec, pieces[i])
  }

  lemma {:induction false} RecordsReadable(codec: Codec, pieces: seq<seq<Byte>>)
    ensures Records(codec, pieces).Ok? <==> AllReadable(codec, pieces)
  {
    if pieces == [] {
    } else {
      var n := |pieces| - 1;
      RecordsReadable(codec, pieces[..n]);
      assert AllReadable(codec, pieces) <==> AllReadable(codec, pieces[..n]) && Readable(codec, pieces[n]);
    }
  }

  /** Writing an index file and reading it back loses nothing. */
  lemma RoundTrip(codec: Codec, versions: seq<CrateVersion>, publish: Option<Publish>)
    requires Faithful(codec)
    ensures Deserialized(codec, Serialized(codec, versions, publish)) == Ok((versions, publish))
  {
    if publish.None? {
      BareRoundTrip(codec, versions);
    } else {
      PublishedRoundTrip(codec, versions, publish.value);
    }
  }

  lemma BareRoundTrip(codec: Codec, versions: seq<CrateVersion>)
    requires Faithful(codec)
    ensures Deserialized(codec, Serialized(codec, versions, None)) == Ok((versions, None))
  {
    var printed := PrintedVersions(codec, versions);
    VersionsRead(codec, versions);
    PrintedAreLines(codec, versions);
    LinesRead(codec, printed);
    assert Serialized(codec, versions, None) == Joined(printed);
  }

  lemma PublishedRoundTrip(codec: Codec, versions: seq<CrateVersion>, publish: Publish)
    requires Faithful(codec)
    ensures Deserialized(codec, Serialized(codec, versions, Some(publish))) == Ok((versions, Some(publish)))
  {
    var printed, line := PrintedVersions(codec, versions), codec.printPublish(publish);
    VersionsRead(codec, versions);
    PrintedAreLines(codec, versions);
    RecordsOneMore(codec, printed, line);
    LinesRead(codec, printed + [line]);
    JoinedLast(printed, line);
  }

  lemma PrintedAreLines(codec: Codec, versions: seq<CrateVersion>)
    requires Faithful(codec)
    ensures forall i | 0 <= i < |versions| :: NEWLINE !in PrintedVersions(codec, versions)[i]
  {
  }

  /** Lines that are written are read back as the records of the lines. */
  lemma LinesRead(codec: Codec, lines: seq<seq<Byte>>)
    requires forall i | 0 <= i < |lines| :: NEWLINE !in lines[i]
    ensures Deserialized(codec, Joined(lines)) == Records(codec, lines)
  {
    PiecesOfJoined(lines);
    RecordsOneMore(codec, lines, []);
  }

  lemma JoinedLast(lines: seq<seq<Byte>>, line: seq<Byte>)
    ensures Joined(lines + [line]) == Joined(lines) + (line + [10])
  {
    assert (lines + [line])[..|lines|] == lines;
  }

  /** What the last piece does to the records before it. */
  lemma RecordsOneMore(codec: Codec, pieces: seq<seq<Byte>>, piece: seq<Byte>)
    ensures var before, after := Records(codec, pieces), Records(codec, pieces + [piece]);
            after == if before.Err? || piece == [] then before
                     else if codec.parseVersion(piece).Some? then
                       Ok((before.value.0 + [codec.parseVersion(piece).value], before.value.1))
                     else if codec.parsePublish(piece).Some? then Ok((before.value.0, codec.parsePublish(piece)))
                     else Err(InvalidIndexFile)
  {
    assert (pieces + [piece])[..|pieces|] == pieces;
  }

  lemma {:induction false} VersionsRead(codec: Codec, versions: seq<CrateVersion>)
    requires Faithful(codec)
    ensures Records(codec, PrintedVersions(codec, versions)) == Ok((versions, None))
  {
    if versions == [] {
    } else {
      var n := |versions| - 1;
      VersionsRead(codec, versions[..n]);
      assert PrintedVersions(codec, versions)[..n] == PrintedVersions(codec, versions[..n]);
      assert versions == versions[..n] + [versions[n]];
    }
  }

  lemma {:induction false} PiecesOfJoined(lines: seq<seq<Byte>>)
    requires forall i | 0 <= i < |lines| :: NEWLINE !in lines[i]
    ensures Pieces(Joined(lines)) == lines + [[]]
  {
    PiecesOfJoinedThen(lines, []);
    assert Joined(lines) + [] == Joined(lines);
  }

  lemma {:induction false} PiecesOfJoinedThen(lines: seq<seq<Byte>>, rest: seq<Byte>)
    requires forall i | 0 <= i < |lines| :: NEWLINE !in lines[i]
    ensures Pieces(Joined(lines) + rest) == lines + Pieces(rest)
  {
    if lines == [] {
      assert Joined(lines) + rest == rest;
    } else {
      var n := |lines| - 1;
      var line := lines[n] + [NEWLINE] + rest;
      assert Joined(lines) + rest == Joined(lines[..n]) + line;
      PiecesOfJoinedThen(lines[..n], line);
      SplitFirstJoined(lines[n], NEWLINE, rest);
      assert lines == lines[..n] + [lines[n]];
    }
  }

  // ---- The format, record by record ----

  /** The text of a file from its front: each record is followed by byte 10, and the publication comes last. */
  lemma SerializedText(codec: Codec, v: CrateVersion, versions: seq<CrateVersion>, publish: Option<Publish>)
    ensures Serialized(codec, [], None) == []
    ensures publish.Some? ==> Serialized(codec, [], publish) == codec.printPublish(publish.value) + [10]
    ensures Serialized(codec, [v] + versions, publish) ==
            codec.printVersion(v) + [10] + Serialized(codec, versions, publish)
  {
    JoinedFront(codec.printVersion(v), PrintedVersions(codec, versions));
    assert PrintedVersions(codec, [v] + versions) == [codec.printVersion(v)] + PrintedVersions(codec, versions);
  }

  lemma {:induction false} JoinedFront(line: seq<Byte>, lines: seq<seq<Byte>>)
    ensures Joined([line] + lines) == line + [10] + Joined(lines)
  {
    if lines == [] {
      JoinedLast([], line);
      assert [line] + lines == [] + [line];
    } else {
      var n := |lines| - 1;
      JoinedFront(line, lines[..n]);
      JoinedLast([line] + lines[..n], lines[n]);
      assert [line] + lines == [line] + lines[..n] + [lines[n]];
    }
  }

  lemma {:induction false} PiecesOneMore(bytes: seq<Byte>, line: seq<Byte>)
    requires 10 !in line
    ensures Pieces(bytes + [10] + line) == Pieces(bytes) + [line]
    decreases |bytes|
  {
    var cut := SplitFirst(bytes, NEWLINE);
    var all := bytes + [10] + line;
    if cut.None? {
      CutAbsent(bytes);
      SplitFirstJoined(bytes, NEWLINE, line);
      SplitFirstAbsent(line, NEWLINE);
    } else {
      CutJoins(bytes);
      SplitFirstJoined(cut.value.0, NEWLINE, cut.value.1 + [10] + line);
      assert all == cut.value.0 + [NEWLINE] + (cut.value.1 + [10] + line);
      PiecesOneMore(cut.value.1, line);
      assert [cut.value.0] + (Pieces(cut.value.1) + [line]) == [cut.value.0] + Pieces(cut.value.1) + [line];
    }
  }

  lemma {:induction false} CutAbsent(bytes: seq<Byte>)
    requires SplitFirst(bytes, NEWLINE).None?
    ensures NEWLINE !in bytes
  {
    if bytes != [] {
      CutAbsent(bytes[1..]);
    }
  }

  lemma {:induction false} CutJoins(bytes: seq<Byte>)
    requires SplitFirst(bytes, NEWLINE).Some?
    ensures var cut := SplitFirst(bytes, NEWLINE).value; bytes == cut.0 + [NEWLINE] + cut.1 && NEWLINE !in cut.0
  {
    if bytes[0] != NEWLINE {
      CutJoins(bytes[1..]);
    }
  }

  /** One more line is a version if it parses as one, else the publication, which replaces an earlier one, else an
      error; an empty line is nothing. */
  lemma OneMoreLine(codec: Codec, bytes: seq<Byte>, line: seq<Byte>)
    requires 10 !in line
    ensures Deserialized(codec, []) == Ok(([], None))
    ensures var before, after := Deserialized(codec, bytes), Deserialized(codec, bytes + [10] + line);
            after == if before.Err? || line == [] then before
                     else if codec.parseVersion(line).Some? then
                       Ok((before.value.0 + [codec.parseVersion(line).value], before.value.1))
                     else if codec.parsePublish(line).Some? then Ok((before.value.0, codec.parsePublish(line)))
                     else Err(InvalidIndexFile)
  {
    PiecesOneMore(bytes, line);
    RecordsOneMore(codec, Pieces(bytes), line);
    var nothing: seq<seq<Byte>> := [[]];
    assert Pieces([]) == nothing && nothing[..0] == [];
    assert Records(codec, nothing[..0]) == Ok(([], None)) && nothing[0] == [];
    assert Records(codec, nothing) == Ok(([], None));
  }
}
