/**
 * The two TSPLIB 95 readers of import_data.py, over the lines of a file
 * (opening and reading the file is not modelled).
 *
 * Each reader is a `method` with the loop of the original, proved equal to
 * a recursive scanner function that consumes one line at a time; the
 * lemmas state what the scanners do with headers, section markers,
 * terminators and ill-formed lines.
 */
module ImportData {
  import opened Results
  import opened Text

  /** Both are `ValueError` in Python: from `int()`, or from unpacking `split()`. */
  datatype ParseError = InvalidInteger | WrongTokenCount

  /** The x and y tokens of a coordinate line, as they are handed to `float()`. */
  datatype Point = Point(x: string, y: string)

  /** `xs` followed by the values of `r`, or the failure of `r`. */
  function Prepend<T>(xs: seq<T>, r: Result<seq<T>, ParseError>): Result<seq<T>, ParseError> {
    match r
    case Success(ys) => Success(xs + ys)
    case Failure(e) => Failure(e)
  }

  lemma PrependNothing<T>(r: Result<seq<T>, ParseError>)
    ensures Prepend([], r) == r
  {
    if r.Success? {
      assert [] + r.value == r.value;
    }
  }

  lemma PrependAppend<T>(xs: seq<T>, ys: seq<T>, r: Result<seq<T>, ParseError>)
    ensures Prepend(xs, Prepend(ys, r)) == Prepend(xs + ys, r)
  {
    if r.Success? {
      assert xs + (ys + r.value) == (xs + ys) + r.value;
    }
  }

  // ---------------------------------------------------------------------
  // parse_tsplib
  // ---------------------------------------------------------------------

  /** `int(line.split()[-1])` on a stripped DIMENSION line; `None` where `int()` raises. */
  function DimensionValue(line: string): Option<int>
    requires StartsWith(line, "DIMENSION")
  {
    StartsWithHead(line, "DIMENSION");
    var ws := Split(line);
    ParseInt(ws[|ws| - 1])
  }

  /**
   * The value of a DIMENSION line is the integer reading of its last
   * whitespace-separated field, whatever the spacing (`DIMENSION: 225`,
   * `DIMENSION :  225`).
   */
  lemma DimensionValueOfFields(line: string, ws: seq<string>, seps: seq<string>)
    requires StartsWith(line, "DIMENSION") && |ws| > 0 && IsSeparation(ws, seps)
    requires forall k :: 0 <= k < |ws| ==> IsToken(ws[k])
    requires line == Spaced(ws, seps)
    ensures DimensionValue(line) == ParseInt(ws[|ws| - 1])
  {
    assert "" + line == line;
    SplitSpaced("", ws, seps);
  }

  /**
   * What `parse_tsplib` produces from `lines`, given whether a
   * NODE_COORD_SECTION line has been seen.
   */
  function TsplibScan(lines: seq<string>, inSection: bool): Result<seq<Point>, ParseError>
    decreases |lines|
  {
    if lines == [] then Success([])
    else
      var line := Strip(lines[0]);
      if StartsWith(line, "DIMENSION") then
        if DimensionValue(line).None? then Failure(InvalidInteger)
        else TsplibScan(lines[1..], inSection)
      else if StartsWith(line, "NODE_COORD_SECTION") then
        TsplibScan(lines[1..], true)
      else if inSection then
        if line == "EOF" then Success([])
        else
          var ws := Split(line);
          if |ws| != 3 then Failure(WrongTokenCount)
          else Prepend([Point(ws[1], ws[2])], TsplibScan(lines[1..], true))
      else TsplibScan(lines[1..], false)
  }

  /** Reads the node coordinates of a TSPLIB problem file, one point per coordinate line. */
  method ParseTsplib(lines: seq<string>) returns (r: Result<seq<Point>, ParseError>)
    ensures r == TsplibScan(lines, false)
  {
    var nodeCoordSection := false;
    var dimension := 0;
    var coords: seq<Point> := [];
    assert lines[0..] == lines;
    PrependNothing(TsplibScan(lines, false));
    for i := 0 to |lines|
      invariant TsplibScan(lines, false) == Prepend(coords, TsplibScan(lines[i..], nodeCoordSection))
    {
      assert lines[i..][0] == lines[i] && lines[i..][1..] == lines[i + 1..];
      var line := Strip(lines[i]);
      if StartsWith(line, "DIMENSION") {
        StartsWithHead(line, "DIMENSION");
        var ws := Split(line);
        var d := ParseInt(ws[|ws| - 1]);
        if d.None? {
          return Failure(InvalidInteger);
        }
        assert TsplibScan(lines[i..], nodeCoordSection) == TsplibScan(lines[i + 1..], nodeCoordSection);
        dimension := d.value;
      } else if StartsWith(line, "NODE_COORD_SECTION") {
        assert TsplibScan(lines[i..], nodeCoordSection) == TsplibScan(lines[i + 1..], true);
        nodeCoordSection := true;
      } else if nodeCoordSection {
        if line == "EOF" {
          break;
        }
        var ws := Split(line);
        if |ws| != 3 {
          return Failure(WrongTokenCount);
        }
        assert TsplibScan(lines[i..], true) == Prepend([Point(ws[1], ws[2])], TsplibScan(lines[i + 1..], true));
        PrependAppend(coords, [Point(ws[1], ws[2])], TsplibScan(lines[i + 1..], true));
        coords := coords + [Point(ws[1], ws[2])];
      }
    }
    assert coords + [] == coords;
    return Success(coords);
  }

  /** A line that is neither a DIMENSION line nor a NODE_COORD_SECTION line. */
  predicate IsPlainLine(line: string) {
    !StartsWith(Strip(line), "DIMENSION") && !StartsWith(Strip(line), "NODE_COORD_SECTION")
  }

  /** A DIMENSION line, in or out of the section, must end in an integer and yields no point. */
  lemma TsplibDimensionLine(line: string, rest: seq<string>, inSection: bool)
    requires StartsWith(Strip(line), "DIMENSION")
    ensures TsplibScan([line] + rest, inSection) ==
      if DimensionValue(Strip(line)).None? then Failure(InvalidInteger) else TsplibScan(rest, inSection)
  {
    assert ([line] + rest)[0] == line && ([line] + rest)[1..] == rest;
  }

  /** A NODE_COORD_SECTION line that is not a DIMENSION line opens the section. */
  lemma TsplibSectionLine(line: string, rest: seq<string>, inSection: bool)
    requires !StartsWith(Strip(line), "DIMENSION") && StartsWith(Strip(line), "NODE_COORD_SECTION")
    ensures TsplibScan([line] + rest, inSection) == TsplibScan(rest, true)
  {
    assert ([line] + rest)[0] == line && ([line] + rest)[1..] == rest;
  }

  /** Outside the section a plain line, an EOF line among them, is ignored. */
  lemma TsplibPlainLineOutside(line: string, rest: seq<string>)
    requires IsPlainLine(line)
    ensures TsplibScan([line] + rest, false) == TsplibScan(rest, false)
  {
    assert ([line] + rest)[0] == line && ([line] + rest)[1..] == rest;
  }

  /** Inside the section an EOF line ends the scan; later lines are not read. */
  lemma TsplibEofInSection(line: string, rest: seq<string>)
    requires IsPlainLine(line) && Strip(line) == "EOF"
    ensures TsplibScan([line] + rest, true) == Success([])
  {
    assert ([line] + rest)[0] == line;
  }

  /**
   * Inside the section any other plain line is a coordinate line: exactly
   * three tokens, the first (the node id) discarded; any other count, a blank
   * line among them, is an error.
   */
  lemma TsplibCoordinateLine(line: string, rest: seq<string>)
    requires IsPlainLine(line) && Strip(line) != "EOF"
    ensures Split(Strip(line)) == [] ==> TsplibScan([line] + rest, true) == Failure(WrongTokenCount)
    ensures TsplibScan([line] + rest, true) ==
      (var ws := Split(Strip(line));
       if |ws| != 3 then Failure(WrongTokenCount) else Prepend([Point(ws[1], ws[2])], TsplibScan(rest, true)))
  {
    assert ([line] + rest)[0] == line && ([line] + rest)[1..] == rest;
  }

  /**
   * Before the coordinate section, plain lines (an EOF line among them)
   * contribute nothing and do not end the scan.
   */
  lemma {:induction false} TsplibSkipsPlainLines(pre: seq<string>, rest: seq<string>)
    requires forall k :: 0 <= k < |pre| ==> IsPlainLine(pre[k])
    ensures TsplibScan(pre + rest, false) == TsplibScan(rest, false)
  {
    if pre == [] {
      assert pre + rest == rest;
    } else {
      assert pre + rest == [pre[0]] + (pre[1..] + rest);
      TsplibPlainLineOutside(pre[0], pre[1..] + rest);
      TsplibSkipsPlainLines(pre[1..], rest);
    }
  }

  /** Without a NODE_COORD_SECTION line, no coordinates are produced. */
  lemma {:induction false} TsplibNoSectionNoPoints(lines: seq<string>)
    requires forall k :: 0 <= k < |lines| ==> !StartsWith(Strip(lines[k]), "NODE_COORD_SECTION")
    ensures TsplibScan(lines, false).Success? ==> TsplibScan(lines, false).value == []
  {
    if lines != [] {
      assert lines == [lines[0]] + lines[1..];
      if StartsWith(Strip(lines[0]), "DIMENSION") {
        TsplibDimensionLine(lines[0], lines[1..], false);
      } else {
        TsplibPlainLineOutside(lines[0], lines[1..]);
      }
      TsplibNoSectionNoPoints(lines[1..]);
    }
  }

  /** The coordinate line `id x y` of a point. */
  function CoordLine(id: int, p: Point): string {
    Unwords([IntToString(id), p.x, p.y])
  }

  function CoordLines(ids: seq<int>, points: seq<Point>): seq<string>
    requires |ids| == |points|
  {
    if points == [] then [] else [CoordLine(ids[0], points[0])] + CoordLines(ids[1..], points[1..])
  }

  predicate IsPointOfTokens(p: Point) {
    IsToken(p.x) && IsToken(p.y)
  }

  /** The DIMENSION line `DIMENSION : d`. */
  function DimensionLine(dimension: int): string {
    Unwords(["DIMENSION", ":", IntToString(dimension)])
  }

  /** The lines of a TSPLIB problem file: a header, DIMENSION, the section, EOF. */
  function TsplibFile(header: seq<string>, dimension: int, ids: seq<int>, points: seq<Point>): seq<string>
    requires |ids| == |points|
  {
    header + [DimensionLine(dimension), "NODE_COORD_SECTION"] + CoordLines(ids, points) + ["EOF"]
  }

  lemma IntToStringIsToken(k: int)
    ensures IsToken(IntToString(k))
  {
    var s := IntToString(k);
    forall i | 0 <= i < |s| ensures !IsSpace(s[i]) {
      if i > 0 {
        assert IsDigit(s[i]);
      }
    }
  }

  lemma CoordLineFacts(id: int, p: Point)
    requires IsPointOfTokens(p)
    ensures Strip(CoordLine(id, p)) == CoordLine(id, p)
    ensures IsPlainLine(CoordLine(id, p)) && CoordLine(id, p) != "EOF"
    ensures Split(CoordLine(id, p)) == [IntToString(id), p.x, p.y]
  {
    var a := IntToString(id);
    var line := CoordLine(id, p);
    IntToStringIsToken(id);
    UnwordsFacts([a, p.x, p.y]);
    SplitUnwords([a, p.x, p.y]);
    if StartsWith(line, "DIMENSION") {
      StartsWithHead(line, "DIMENSION");
    }
    if StartsWith(line, "NODE_COORD_SECTION") {
      StartsWithHead(line, "NODE_COORD_SECTION");
    }
    assert line[0] != 'E';
  }

  lemma DimensionLineFacts(dimension: int)
    ensures Strip(DimensionLine(dimension)) == DimensionLine(dimension)
    ensures StartsWith(DimensionLine(dimension), "DIMENSION")
    ensures DimensionValue(DimensionLine(dimension)) == Some(dimension)
  {
    var ws := ["DIMENSION", ":", IntToString(dimension)];
    IntToStringIsToken(dimension);
    assert IsToken("DIMENSION") && IsToken(":");
    UnwordsFacts(ws);
    SplitUnwords(ws);
    ParseIntToString(dimension);
  }

  lemma SectionLineFacts()
    ensures Strip("NODE_COORD_SECTION") == "NODE_COORD_SECTION"
    ensures !StartsWith("NODE_COORD_SECTION", "DIMENSION")
    ensures StartsWith("NODE_COORD_SECTION", "NODE_COORD_SECTION")
  {
    StripUnchanged("NODE_COORD_SECTION");
    assert "NODE_COORD_SECTION"[..9][0] == 'N';
  }

  lemma EofLineFacts()
    ensures IsPlainLine("EOF") && Strip("EOF") == "EOF"
  {
    StripUnchanged("EOF");
  }

  /** Inside the section, a generated coordinate line adds its point. */
  lemma CoordLineStep(id: int, p: Point, rest: seq<string>)
    requires IsPointOfTokens(p)
    ensures TsplibScan([CoordLine(id, p)] + rest, true) == Prepend([p], TsplibScan(rest, true))
  {
    CoordLineFacts(id, p);
    TsplibCoordinateLine(CoordLine(id, p), rest);
  }

  lemma {:induction false} TsplibSection(ids: seq<int>, points: seq<Point>)
    requires |ids| == |points|
    requires forall k :: 0 <= k < |points| ==> IsPointOfTokens(points[k])
    ensures TsplibScan(CoordLines(ids, points) + ["EOF"], true) == Success(points)
  {
    EofLineFacts();
    if points == [] {
      assert CoordLines(ids, points) + ["EOF"] == ["EOF"] + [];
      TsplibEofInSection("EOF", []);
    } else {
      var rest := CoordLines(ids[1..], points[1..]) + ["EOF"];
      assert CoordLines(ids, points) + ["EOF"] == [CoordLine(ids[0], points[0])] + rest;
      CoordLineStep(ids[0], points[0], rest);
      assert forall k :: 0 <= k < |points[1..]| ==> IsPointOfTokens(points[1..][k]) by {
        forall k | 0 <= k < |points[1..]| ensures IsPointOfTokens(points[1..][k]) {
          assert points[1..][k] == points[k + 1];
        }
      }
      TsplibSection(ids[1..], points[1..]);
      assert [points[0]] + points[1..] == points;
    }
  }

  /**
   * Round trip: from a well-formed file, `parse_tsplib` returns the points
   * of the coordinate lines in file order. The node ids are discarded, so a
   * point's position is its line's position whatever its id, and the
   * DIMENSION value is parsed but never compared with the count.
   */
  lemma TsplibRoundTrip(header: seq<string>, dimension: int, ids: seq<int>, points: seq<Point>)
    requires forall k :: 0 <= k < |header| ==> IsPlainLine(header[k])
    requires |ids| == |points|
    requires forall k :: 0 <= k < |points| ==> IsPointOfTokens(points[k])
    ensures TsplibScan(TsplibFile(header, dimension, ids, points), false) == Success(points)
  {
    var section := CoordLines(ids, points) + ["EOF"];
    var afterDim := ["NODE_COORD_SECTION"] + section;
    var rest := [DimensionLine(dimension)] + afterDim;
    assert TsplibFile(header, dimension, ids, points) == header + rest;
    TsplibSkipsPlainLines(header, rest);
    DimensionLineFacts(dimension);
    TsplibDimensionLine(DimensionLine(dimension), afterDim, false);
    SectionLineFacts();
    TsplibSectionLine("NODE_COORD_SECTION", section, false);
    TsplibSection(ids, points);
  }

  // ---------------------------------------------------------------------
  // parse_tour_file
  // ---------------------------------------------------------------------

  /** A line that ends `parse_tour_file`, whether or not the section has started. */
  predicate IsTerminator(line: string) {
    Strip(line) == "-1" || Strip(line) == "EOF"
  }

  /**
   * What `parse_tour_file` produces from `lines`, given whether a
   * TOUR_SECTION line has been seen.
   */
  function TourScan(lines: seq<string>, inSection: bool): Result<seq<int>, ParseError>
    decreases |lines|
  {
    if lines == [] then Success([])
    else
      var line := Strip(lines[0]);
      if line == "TOUR_SECTION" then TourScan(lines[1..], true)
      else if line == "-1" || line == "EOF" then Success([])
      else if inSection then
        match ParseInt(line)
        case None => Failure(InvalidInteger)
        case Some(city) => Prepend([city], TourScan(lines[1..], true))
      else TourScan(lines[1..], false)
  }

  /** Reads the city numbers of a TSPLIB tour file, in file order and as written (1-based). */
  method ParseTourFile(lines: seq<string>) returns (r: Result<seq<int>, ParseError>)
    ensures r == TourScan(lines, false)
  {
    var tour: seq<int> := [];
    var inTourSection := false;
    assert lines[0..] == lines;
    PrependNothing(TourScan(lines, false));
    for i := 0 to |lines|
      invariant TourScan(lines, false) == Prepend(tour, TourScan(lines[i..], inTourSection))
    {
      assert lines[i..][0] == lines[i] && lines[i..][1..] == lines[i + 1..];
      var line := Strip(lines[i]);
      if line == "TOUR_SECTION" {
        inTourSection := true;
        continue;
      }
      if line == "-1" || line == "EOF" {
        break;
      }
      if inTourSection {
        var city := ParseInt(line);
        if city.None? {
          return Failure(InvalidInteger);
        }
        PrependAppend(tour, [city.value], TourScan(lines[i + 1..], true));
        tour := tour + [city.value];
      }
    }
    assert tour + [] == tour;
    return Success(tour);
  }

  /** A line that is neither a TOUR_SECTION marker nor a terminator. */
  predicate IsTourPlainLine(line: string) {
    Strip(line) != "TOUR_SECTION" && !IsTerminator(line)
  }

  /** A TOUR_SECTION line opens the section, also when it is already open (no reset). */
  lemma TourSectionLine(line: string, rest: seq<string>, inSection: bool)
    requires Strip(line) == "TOUR_SECTION"
    ensures TourScan([line] + rest, inSection) == TourScan(rest, true)
  {
    assert ([line] + rest)[0] == line && ([line] + rest)[1..] == rest;
  }

  /** A `-1` or EOF line ends the scan, before or inside the section. */
  lemma TourTerminatorLine(line: string, rest: seq<string>, inSection: bool)
    requires IsTerminator(line)
    ensures TourScan([line] + rest, inSection) == Success([])
  {
    assert ([line] + rest)[0] == line;
  }

  /** Before the section, a plain line is ignored, however it reads. */
  lemma TourHeaderLine(line: string, rest: seq<string>)
    requires IsTourPlainLine(line)
    ensures TourScan([line] + rest, false) == TourScan(rest, false)
  {
    assert ([line] + rest)[0] == line && ([line] + rest)[1..] == rest;
  }

  /**
   * Inside the section, a plain line must be an integer, which is appended
   * unchanged; anything else, a blank line among them, is an error.
   */
  lemma TourCityLine(line: string, rest: seq<string>)
    requires IsTourPlainLine(line)
    ensures Strip(line) == "" ==> TourScan([line] + rest, true) == Failure(InvalidInteger)
    ensures TourScan([line] + rest, true) ==
      match ParseInt(Strip(line))
      case None => Failure(InvalidInteger)
      case Some(city) => Prepend([city], TourScan(rest, true))
  {
    assert ([line] + rest)[0] == line && ([line] + rest)[1..] == rest;
  }

  /** Before TOUR_SECTION, plain lines contribute nothing, however they read. */
  lemma {:induction false} TourSkipsHeader(pre: seq<string>, rest: seq<string>)
    requires forall k :: 0 <= k < |pre| ==> IsTourPlainLine(pre[k])
    ensures TourScan(pre + rest, false) == TourScan(rest, false)
  {
    if pre == [] {
      assert pre + rest == rest;
    } else {
      assert pre + rest == [pre[0]] + (pre[1..] + rest);
      TourHeaderLine(pre[0], pre[1..] + rest);
      TourSkipsHeader(pre[1..], rest);
    }
  }

  /** Nothing after the first terminator line is read, even before TOUR_SECTION. */
  lemma {:induction false} TourStopsAtTerminator(pre: seq<string>, t: string, post: seq<string>, inSection: bool)
    requires IsTerminator(t)
    ensures TourScan(pre + [t] + post, inSection) == TourScan(pre + [t], inSection)
  {
    if pre == [] {
      assert pre + [t] + post == [t] + post && pre + [t] == [t] + [];
      TourTerminatorLine(t, post, inSection);
      TourTerminatorLine(t, [], inSection);
    } else {
      var x := pre[0];
      var long := pre[1..] + [t] + post;
      var short := pre[1..] + [t];
      assert pre + [t] + post == [x] + long && pre + [t] == [x] + short;
      if Strip(x) == "TOUR_SECTION" {
        TourSectionLine(x, long, inSection);
        TourSectionLine(x, short, inSection);
        TourStopsAtTerminator(pre[1..], t, post, true);
      } else if IsTerminator(x) {
        TourTerminatorLine(x, long, inSection);
        TourTerminatorLine(x, short, inSection);
      } else if inSection {
        TourCityLine(x, long);
        TourCityLine(x, short);
        TourStopsAtTerminator(pre[1..], t, post, true);
      } else {
        TourHeaderLine(x, long);
        TourHeaderLine(x, short);
        TourStopsAtTerminator(pre[1..], t, post, false);
      }
    }
  }

  /** The values read before a repeated TOUR_SECTION line, followed by those after it. */
  function Then(r: Result<seq<int>, ParseError>, s: Result<seq<int>, ParseError>): Result<seq<int>, ParseError> {
    match r
    case Success(xs) => Prepend(xs, s)
    case Failure(e) => Failure(e)
  }

  /** A repeated TOUR_SECTION line is skipped: the values read so far are kept, not reset. */
  lemma {:induction false} TourRepeatedSection(pre: seq<string>, post: seq<string>)
    requires forall k :: 0 <= k < |pre| ==> IsTourPlainLine(pre[k])
    ensures TourScan(pre + ["TOUR_SECTION"] + post, true) == Then(TourScan(pre, true), TourScan(post, true))
  {
    StripUnchanged("TOUR_SECTION");
    if pre == [] {
      assert pre + ["TOUR_SECTION"] + post == ["TOUR_SECTION"] + post;
      TourSectionLine("TOUR_SECTION", post, true);
      PrependNothing(TourScan(post, true));
    } else {
      var x := pre[0];
      var long := pre[1..] + ["TOUR_SECTION"] + post;
      assert pre + ["TOUR_SECTION"] + post == [x] + long && pre == [x] + pre[1..];
      TourCityLine(x, long);
      TourCityLine(x, pre[1..]);
      TourRepeatedSection(pre[1..], post);
      var city := ParseInt(Strip(x));
      var tail := TourScan(pre[1..], true);
      if city.Some? && tail.Success? {
        PrependAppend([city.value], tail.value, TourScan(post, true));
      }
    }
  }

  /** The city lines of a tour file, one number per line. */
  function TourLines(tour: seq<int>): seq<string> {
    if tour == [] then [] else [IntToString(tour[0])] + TourLines(tour[1..])
  }

  /** The lines of a TSPLIB tour file: a header, TOUR_SECTION, the cities, -1 and EOF. */
  function TourFile(header: seq<string>, tour: seq<int>): seq<string> {
    header + ["TOUR_SECTION"] + TourLines(tour) + ["-1", "EOF"]
  }

  lemma CityLineFacts(city: int)
    requires city != -1
    ensures Strip(IntToString(city)) == IntToString(city)
    ensures IsTourPlainLine(IntToString(city))
    ensures ParseInt(IntToString(city)) == Some(city)
  {
    var s := IntToString(city);
    StripUnchanged(s);
    ParseIntToString(city);
    ParseIntToString(-1);
    assert "-1" == IntToString(-1);
  }

  lemma {:induction false} TourSection(tour: seq<int>)
    requires forall k :: 0 <= k < |tour| ==> tour[k] != -1
    ensures TourScan(TourLines(tour) + ["-1", "EOF"], true) == Success(tour)
  {
    if tour == [] {
      StripUnchanged("-1");
      assert TourLines(tour) + ["-1", "EOF"] == ["-1"] + ["EOF"];
      TourTerminatorLine("-1", ["EOF"], true);
    } else {
      var line := IntToString(tour[0]);
      var rest := TourLines(tour[1..]) + ["-1", "EOF"];
      assert TourLines(tour) + ["-1", "EOF"] == [line] + rest;
      CityLineFacts(tour[0]);
      TourCityLine(line, rest);
      TourSection(tour[1..]);
      assert [tour[0]] + tour[1..] == tour;
    }
  }

  /**
   * Round trip: from a well-formed tour file, `parse_tour_file` returns the
   * cities exactly as written, in file order, with no shift to 0-based
   * numbering.
   */
  lemma TourRoundTrip(header: seq<string>, tour: seq<int>)
    requires forall k :: 0 <= k < |header| ==> IsTourPlainLine(header[k])
    requires forall k :: 0 <= k < |tour| ==> tour[k] != -1
    ensures TourScan(TourFile(header, tour), false) == Success(tour)
  {
    var section := TourLines(tour) + ["-1", "EOF"];
    var rest := ["TOUR_SECTION"] + section;
    assert TourFile(header, tour) == header + rest;
    TourSkipsHeader(header, rest);
    StripUnchanged("TOUR_SECTION");
    TourSectionLine("TOUR_SECTION", section, false);
    TourSection(tour);
  }
}
