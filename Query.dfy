/** The catalog query: the product, version, spatial and temporal clauses of the granule
    search URL, the parse of the polygon argument `file[var1,var2]`, the choice of polygon
    reader by file extension, and the URL of one result page. Coordinates arrive as the text
    `'{:f}'` makes of them; the polygon reader with its convex hull and the date parser are
    inputs. */
module Query {
  import opened Text
  import opened Results
  import opened Exceptions
  import PosixPath

  /** `posixpath.join('https://cmr.earthdata.nasa.gov','search','granules')`. */
  const Host := "https://cmr.earthdata.nasa.gov/search/granules"

  /** The number of granules requested per page. */
  const PageSize: nat := 10

  /** Python truthiness of an optional list or string: present and non-empty. */
  predicate Given<T>(x: Option<seq<T>>) {
    x.Some? && |x.value| > 0
  }

  // ---------------------------------------------------------------------------------------
  // Product and version clauses
  // ---------------------------------------------------------------------------------------

  /** The product clause: the `short_name` parameter that opens the query string. */
  function ProductFlag(product: string): (f: string)
    ensures |f| == 12 + |product| && f[..12] == "?short_name=" && f[12..] == product
  {
    "?short_name=" + product
  }

  /** The version clause, empty when the version is None or "". */
  function VersionFlag(version: Option<string>): (f: string)
    ensures f == "" <==> !Given(version)
    ensures f != "" ==> |f| >= 9 && f[..9] == "&version=" && f[9..] == version.value
  {
    if Given(version) then "&version=" + version.value else ""
  }

  // ---------------------------------------------------------------------------------------
  // Bounding box clause
  // ---------------------------------------------------------------------------------------

  /** The order the catalog expects, lon_min,lat_min,lon_max,lat_max, from the user's
      lat_min,lon_min,lat_max,lon_max. */
  function Reorder<T>(b: seq<T>): (r: seq<T>)
    requires |b| == 4
    ensures |r| == 4
  {
    [b[1], b[0], b[3], b[2]]
  }

  /** The reordered box holds the same four bounds. */
  lemma ReorderPermutes<T>(b: seq<T>)
    requires |b| == 4
    ensures multiset(Reorder(b)) == multiset(b)
  {
    assert b == [b[0]] + [b[1]] + [b[2]] + [b[3]];
    assert Reorder(b) == [b[1]] + [b[0]] + [b[3]] + [b[2]];
  }

  /** Reordering twice restores the box: the reordering is its own inverse. */
  lemma ReorderInvolution<T>(b: seq<T>)
    requires |b| == 4
    ensures Reorder(Reorder(b)) == b
  {
  }

  /** `'{1:f},{0:f},{3:f},{2:f}'.format(*BBOX)`, which reads the first four entries only. */
  function BoundsText(bbox: seq<string>): (r: string)
    requires |bbox| >= 4
    ensures r == Join(Reorder(bbox[..4]), ',')
  {
    var b := Reorder(bbox[..4]);
    assert b[1..][1..][1..] == [bbox[2]];
    assert Join(b[1..][1..], ',') == bbox[3] + "," + bbox[2];
    assert Join(b[1..], ',') == bbox[0] + "," + bbox[3] + "," + bbox[2];
    bbox[1] + "," + bbox[0] + "," + bbox[3] + "," + bbox[2]
  }

  /** The bounds text is the box, reordered, joined with commas; splitting it at the commas
      and reordering once more gives back the box. */
  lemma {:induction false} BoundsTextRoundTrip(bbox: seq<string>)
    requires |bbox| >= 4
    requires forall i :: 0 <= i < 4 ==> ',' !in bbox[i]
    ensures Split(BoundsText(bbox), ',') == Reorder(bbox[..4])
    ensures Reorder(Split(BoundsText(bbox), ',')) == bbox[..4]
  {
    SplitJoin(Reorder(bbox[..4]), ',');
  }

  // ---------------------------------------------------------------------------------------
  // Polygon clause
  // ---------------------------------------------------------------------------------------

  function Min(a: nat, b: nat): nat {
    if a <= b then a else b
  }

  /** x1,y1,x2,y2,... over `zip(X, Y)`: the pairs up to the shorter of the two. */
  function Interleave<T>(xs: seq<T>, ys: seq<T>): (r: seq<T>)
    ensures |r| == 2 * Min(|xs|, |ys|)
  {
    if |xs| == 0 || |ys| == 0 then [] else [xs[0], ys[0]] + Interleave(xs[1..], ys[1..])
  }

  /** The `i`-th pair of the interleaving is the `i`-th x and the `i`-th y. */
  lemma {:induction false} InterleaveAt<T>(xs: seq<T>, ys: seq<T>, i: nat)
    requires i < Min(|xs|, |ys|)
    ensures Interleave(xs, ys)[2 * i] == xs[i] && Interleave(xs, ys)[2 * i + 1] == ys[i]
    decreases i
  {
    if i > 0 {
      InterleaveAt(xs[1..], ys[1..], i - 1);
      var rest := Interleave(xs[1..], ys[1..]);
      assert Interleave(xs, ys)[2 * i] == rest[2 * (i - 1)];
      assert Interleave(xs, ys)[2 * i + 1] == rest[2 * (i - 1) + 1];
    }
  }

  /** Every interleaved element comes from one of the two sequences. */
  lemma {:induction false} InterleaveElements<T>(xs: seq<T>, ys: seq<T>)
    ensures forall k :: 0 <= k < |Interleave(xs, ys)| ==> Interleave(xs, ys)[k] in xs || Interleave(xs, ys)[k] in ys
    decreases |xs|
  {
    if |xs| > 0 && |ys| > 0 {
      InterleaveElements(xs[1..], ys[1..]);
      var rest := Interleave(xs[1..], ys[1..]);
      assert Interleave(xs, ys) == [xs[0], ys[0]] + rest;
      assert forall k :: 2 <= k < |Interleave(xs, ys)| ==> Interleave(xs, ys)[k] == rest[k - 2];
      assert forall z :: z in xs[1..] ==> z in xs;
      assert forall z :: z in ys[1..] ==> z in ys;
    }
  }

  /** `['{0:f},{1:f}'.format(x,y) for x,y in zip(X,Y)]`: one "x,y" text per pair, up to the
      shorter of the two. */
  function PairTexts(xs: seq<string>, ys: seq<string>): (r: seq<string>)
    ensures |r| == Min(|xs|, |ys|)
    ensures forall k :: 0 <= k < |r| ==> r[k] == xs[k] + "," + ys[k]
  {
    if |xs| == 0 || |ys| == 0 then [] else [xs[0] + "," + ys[0]] + PairTexts(xs[1..], ys[1..])
  }

  /** The argument of the polygon clause: the pairs joined with commas, which is the
      interleaved coordinates joined with commas. */
  function PolygonText(xs: seq<string>, ys: seq<string>): (r: string)
    ensures r == Join(Interleave(xs, ys), ',')
  {
    JoinPairTexts(xs, ys);
    Join(PairTexts(xs, ys), ',')
  }

  /** Joining the "x,y" pairs is joining the interleaved coordinates. */
  lemma {:induction false} JoinPairTexts(xs: seq<string>, ys: seq<string>)
    ensures Join(PairTexts(xs, ys), ',') == Join(Interleave(xs, ys), ',')
    decreases |xs|
  {
    if |xs| > 0 && |ys| > 0 {
      var rest := Interleave(xs[1..], ys[1..]);
      JoinPairTexts(xs[1..], ys[1..]);
      var one := [xs[0] + "," + ys[0]];
      var pairs := PairTexts(xs[1..], ys[1..]);
      assert PairTexts(xs, ys) == one + pairs;
      assert Interleave(xs, ys) == [xs[0], ys[0]] + rest;
      assert ([xs[0], ys[0]] + rest)[1..] == [ys[0]] + rest;
      assert ([ys[0]] + rest)[1..] == rest;
      assert (one + pairs)[1..] == pairs;
      if |rest| == 0 {
        assert Join([ys[0]] + rest, ',') == ys[0];
      }
    }
  }

  /** Splitting the polygon text at the commas gives x1,y1,...,xk,yk over the zipped pairs:
      2 * min(|X|, |Y|) numbers, for a hull with at least one vertex. */
  lemma PolygonTextSplits(xs: seq<string>, ys: seq<string>)
    requires Min(|xs|, |ys|) >= 1
    requires forall i :: 0 <= i < |xs| ==> ',' !in xs[i]
    requires forall i :: 0 <= i < |ys| ==> ',' !in ys[i]
    ensures Split(PolygonText(xs, ys), ',') == Interleave(xs, ys)
    ensures |Split(PolygonText(xs, ys), ',')| == 2 * Min(|xs|, |ys|)
  {
    var r := Interleave(xs, ys);
    InterleaveElements(xs, ys);
    SplitJoin(r, ',');
  }

  // ---------------------------------------------------------------------------------------
  // The polygon argument: re.match(r'(.*?)(\[(.*?)\])?$', POLYGON)
  // ---------------------------------------------------------------------------------------

  /** The groups the pattern captures: group 1, and group 3 when the optional group 2
      matched. */
  datatype PolygonMatch = PolygonMatch(group1: string, group3: Option<string>)

  /** Where Python's `$` matches: at the end, or just before a final newline. */
  predicate EndAnchor(s: string, i: nat) {
    i == |s| || (i == |s| - 1 && s[i] == '\n')
  }

  /** The groups account for the string: group 1 is a prefix, followed either by the end
      anchor or by '[', group 3, ']' and the end anchor. */
  predicate Matches(s: string, m: PolygonMatch) {
    var k := |m.group1|;
    k <= |s| && s[..k] == m.group1
    && (m.group3.None? ==> EndAnchor(s, k))
    && (m.group3.Some? ==>
          var e := k + 1 + |m.group3.value|;
          e < |s| && s[k] == '[' && s[k + 1..e] == m.group3.value && s[e] == ']' && EndAnchor(s, e + 1))
  }

  /** `(.*?)\]$` from index `j`: the lazy group grows one character at a time (never over a
      newline, which `.` does not match) until a ']' stands where `$` matches after it. */
  function CloseBracket(s: string, j: nat): (r: Option<nat>)
    requires j <= |s|
    ensures r.Some? ==> j <= r.value < |s| && s[r.value] == ']' && EndAnchor(s, r.value + 1)
    decreases |s| - j
  {
    if j == |s| then None
    else if s[j] == ']' && EndAnchor(s, j + 1) then Some(j)
    else if s[j] == '\n' then None
    else CloseBracket(s, j + 1)
  }

  /** The match with group 1 at least `i` long: at each length the optional bracket group is
      tried first, then the end anchor; otherwise group 1 takes one more character. */
  function MatchFrom(s: string, i: nat): Option<PolygonMatch>
    requires i <= |s|
    decreases |s| - i
  {
    if i < |s| && s[i] == '[' && CloseBracket(s, i + 1).Some? then
      Some(PolygonMatch(s[..i], Some(s[i + 1..CloseBracket(s, i + 1).value])))
    else if EndAnchor(s, i) then Some(PolygonMatch(s[..i], None))
    else if s[i] == '\n' then None
    else MatchFrom(s, i + 1)
  }

  /** `re.match(r'(.*?)(\[(.*?)\])?$', s)`; None when the pattern does not match. */
  function MatchPolygonArgument(s: string): (m: Option<PolygonMatch>)
    ensures m.Some? ==> Matches(s, m.value)
  {
    MatchFromMatches(s, 0);
    MatchFrom(s, 0)
  }

  /** A match found from index `i` on accounts for the string, with group 1 at least `i`
      long. */
  lemma {:induction false} MatchFromMatches(s: string, i: nat)
    requires i <= |s|
    ensures MatchFrom(s, i).Some? ==> Matches(s, MatchFrom(s, i).value) && i <= |MatchFrom(s, i).value.group1|
    decreases |s| - i
  {
    if !(i < |s| && s[i] == '[' && CloseBracket(s, i + 1).Some?) && !EndAnchor(s, i) && s[i] != '\n' {
      MatchFromMatches(s, i + 1);
    }
  }

  /** The argument ends with a bracket pair: it ends with ']' and has a '[' somewhere. */
  predicate HasBracketSuffix(s: string) {
    |s| >= 1 && s[|s| - 1] == ']' && '[' in s
  }

  /** What the pattern captures from a string without newlines: the text before the first
      '[' and the text between it and the final ']' when there is a bracket suffix, else the
      whole string and nothing. */
  function ExpectedMatch(s: string): PolygonMatch
  {
    if HasBracketSuffix(s) then
      var k := FirstIndex(s, '[');
      assert k < |s| - 1 by { assert s[k] != s[|s| - 1]; }
      PolygonMatch(s[..k], Some(s[k + 1..|s| - 1]))
    else PolygonMatch(s, None)
  }

  lemma {:induction false} CloseBracketWithoutNewline(s: string, j: nat)
    requires j <= |s| && '\n' !in s
    ensures CloseBracket(s, j) == if j < |s| && s[|s| - 1] == ']' then Some(|s| - 1) else None
    decreases |s| - j
  {
    if j < |s| {
      assert s[j] != '\n';
      if !(s[j] == ']' && EndAnchor(s, j + 1)) {
        CloseBracketWithoutNewline(s, j + 1);
      }
    }
  }

  lemma {:induction false} MatchFromWithoutNewline(s: string, i: nat)
    requires i <= |s| && '\n' !in s
    requires HasBracketSuffix(s) ==> forall j :: 0 <= j < i ==> s[j] != '['
    ensures MatchFrom(s, i) == Some(ExpectedMatch(s))
    decreases |s| - i
  {
    if i < |s| {
      assert s[i] != '\n';
      CloseBracketWithoutNewline(s, i + 1);
      if s[i] == '[' && HasBracketSuffix(s) {
        assert FirstIndex(s, '[') == i;
      } else {
        MatchFromWithoutNewline(s, i + 1);
      }
    } else {
      assert s[..i] == s;
      if HasBracketSuffix(s) {
        var k := FirstIndex(s, '[');
      }
    }
  }

  /** For an argument without newlines the pattern always matches, and it captures what
      `ExpectedMatch` says. */
  lemma MatchWithoutNewline(s: string)
    requires '\n' !in s
    ensures MatchPolygonArgument(s) == Some(ExpectedMatch(s))
  {
    MatchFromWithoutNewline(s, 0);
  }

  lemma {:induction false} NoCloseBeforeNewline(s: string, j: nat, p: nat)
    requires j <= p < |s| - 1 && s[p] == '\n'
    ensures CloseBracket(s, j) == None
    decreases |s| - j
  {
    if j < p {
      NoCloseBeforeNewline(s, j + 1, p);
    }
  }

  lemma {:induction false} NoMatchBeforeNewline(s: string, i: nat, p: nat)
    requires i <= p < |s| - 1 && s[p] == '\n'
    ensures MatchFrom(s, i) == None
    decreases |s| - i
  {
    if i + 1 <= p {
      NoCloseBeforeNewline(s, i + 1, p);
      NoMatchBeforeNewline(s, i + 1, p);
    }
  }

  /** '.' does not match a newline, so an argument with a newline anywhere before its last
      character does not match at all (and `.group` then raises). */
  lemma NewlineInsideDoesNotMatch(s: string, p: nat)
    requires p < |s| - 1 && s[p] == '\n'
    ensures MatchPolygonArgument(s) == None
  {
    NoMatchBeforeNewline(s, 0, p);
  }

  /** The polygon file and the variables to read from it. */
  datatype PolygonArgument = PolygonArgument(file: string, variables: Option<seq<string>>)

  /** The file name is group 1; the variables are group 3 split at commas when group 2
      matched, and None otherwise. */
  function ParsePolygonArgument(s: string): (r: Result<PolygonArgument, Exception>)
    ensures r.Failure? <==> MatchPolygonArgument(s).None?
  {
    match MatchPolygonArgument(s)
    case None => Failure(NoMatch(s))
    case Some(m) =>
      Success(PolygonArgument(m.group1, if m.group3.Some? then Some(Split(m.group3.value, ',')) else None))
  }

  /** For an argument without newlines: with a bracket suffix the file is the text before
      the first '[' and the variables are the bracket contents split at commas; otherwise the
      file is the whole argument and there are no variables. */
  lemma ParsePolygonArgumentWithoutNewline(s: string)
    requires '\n' !in s
    ensures ParsePolygonArgument(s).Success?
    ensures var arg := ParsePolygonArgument(s).value;
      if HasBracketSuffix(s) then
        var k := FirstIndex(s, '[');
        k < |s| - 1 && arg.file == s[..k] && '[' !in arg.file && arg.variables == Some(Split(s[k + 1..|s| - 1], ','))
      else arg == PolygonArgument(s, None)
  {
    if HasBracketSuffix(s) {
      ParseWithBrackets(s);
    } else {
      MatchWithoutNewline(s);
    }
  }

  lemma ParseWithBrackets(s: string)
    requires '\n' !in s && HasBracketSuffix(s)
    ensures var k := FirstIndex(s, '[');
      k < |s| - 1 &&
      ParsePolygonArgument(s) == Success(PolygonArgument(s[..k], Some(Split(s[k + 1..|s| - 1], ','))))
      && '[' !in s[..k]
  {
    MatchWithoutNewline(s);
    BeforeFirst(s, '[');
  }

  /** Empty brackets give one empty variable name. */
  lemma EmptyBracketsGiveOneEmptyName()
    ensures ParsePolygonArgument("a[]") == Success(PolygonArgument("a", Some([""])))
  {
    var s := "a[]";
    assert s[1] == '[';
    assert HasBracketSuffix(s);
    ParsePolygonArgumentWithoutNewline(s);
    assert FirstIndex(s, '[') == 1;
    assert s[..1] == "a";
    assert s[2..2] == "";
    assert Split("", ',') == [""];
  }

  // ---------------------------------------------------------------------------------------
  // Choosing the polygon reader
  // ---------------------------------------------------------------------------------------

  /** The polygon readers: a shapefile (zipped or not), KML (compressed KMZ or not) or GeoJSON. */
  datatype Loader = Shapefile(zip: bool) | Kml(kmz: bool) | GeoJson

  /** The extension `os.path.splitext` gives: a suffix of the argument, empty or starting
      with '.', with no '/'. */
  function Extension(p: string): (e: string)
    ensures |e| <= |p| && p[|p| - |e|..] == e
    ensures e == "" || (e[0] == '.' && '/' !in e)
  {
    PosixPath.SplitExt(p).1
  }

  /** The reader for the extension of the whole polygon argument. */
  function SelectLoader(polygon: string): (r: Result<Loader, Exception>)
    ensures r.Failure? <==> Extension(polygon) !in {".shp", ".zip", ".kml", ".kmz", ".json", ".geojson"}
    ensures r.Failure? ==> r.error == UnlistedPolygonType(Extension(polygon))
    ensures r.Success? && r.value.Shapefile? ==> (r.value.zip <==> Extension(polygon) == ".zip")
    ensures r.Success? && r.value.Kml? ==> (r.value.kmz <==> Extension(polygon) == ".kmz")
    ensures r.Success? ==> (r.value.Shapefile? <==> Extension(polygon) in {".shp", ".zip"})
    ensures r.Success? ==> (r.value.Kml? <==> Extension(polygon) in {".kml", ".kmz"})
  {
    var ext := Extension(polygon);
    if ext == ".shp" || ext == ".zip" then Success(Shapefile(ext == ".zip"))
    else if ext == ".kml" || ext == ".kmz" then Success(Kml(ext == ".kmz"))
    else if ext == ".json" || ext == ".geojson" then Success(GeoJson)
    else Failure(UnlistedPolygonType(ext))
  }

  /** The extension is taken before the bracket suffix is removed, so every argument that
      ends with ']' is rejected as an unlisted polygon type. */
  lemma BracketSuffixIsRejected(polygon: string)
    requires |polygon| >= 1 && polygon[|polygon| - 1] == ']'
    ensures SelectLoader(polygon) == Failure(UnlistedPolygonType(Extension(polygon)))
  {
    var (root, ext) := PosixPath.SplitExt(polygon);
    if ext != "" {
      assert ext[|ext| - 1] == polygon[|polygon| - 1];
    }
  }

  /** Hence a polygon argument that reaches a reader never names variables to read. */
  lemma AcceptedArgumentHasNoVariables(polygon: string)
    requires '\n' !in polygon
    requires SelectLoader(polygon).Success?
    ensures ParsePolygonArgument(polygon) == Success(PolygonArgument(polygon, None))
  {
    ParsePolygonArgumentWithoutNewline(polygon);
    if HasBracketSuffix(polygon) {
      BracketSuffixIsRejected(polygon);
    }
  }

  /** "x.shp[a]" is rejected: its extension is ".shp[a]". */
  lemma ShapefileWithVariablesIsRejected()
    ensures SelectLoader("x.shp[a]").Failure?
  {
    BracketSuffixIsRejected("x.shp[a]");
  }

  /** A polygon argument that ends with a bracket pair, and has no newline, parses but is
      refused by the dispatch: its extension is taken from the whole argument. */
  lemma BracketSuffixFails(polygon: string, readHull: HullReader)
    requires '\n' !in polygon && |polygon| >= 1 && polygon[|polygon| - 1] == ']'
    ensures SpatialFlag(None, Some(polygon), readHull) == Failure(UnlistedPolygonType(Extension(polygon)))
  {
    MatchWithoutNewline(polygon);
    BracketSuffixIsRejected(polygon);
  }

  /** The extension of a shapefile path followed by a variable list is ".shp[" + v + "]". */
  lemma ShapefileWithVariablesPath(root: string, v: string)
    requires root != "" && root[|root| - 1] != '.' && root[|root| - 1] != '/' && '\n' !in root
    requires '.' !in v && '/' !in v && '\n' !in v
    ensures var p := root + ".shp[" + v + "]";
      '\n' !in p && p[|p| - 1] == ']' && Extension(p) == ".shp[" + v + "]"
  {
    var ext := ".shp[" + v + "]";
    assert ext[1..] == "shp[" + v + "]";
    assert forall k :: 0 <= k < |ext| ==> ext[k] != '/' && ext[k] != '\n' && (k >= 1 ==> ext[k] != '.');
    PosixPath.SplitExtOf(root, ext);
    assert root + ".shp[" + v + "]" == root + ext;
  }

  /** So a shapefile with a variable list, such as "x.shp[a]", is refused as the unlisted
      type ".shp[" + v + "]", although its file part alone would be accepted. */
  lemma ShapefileWithVariablesFails(root: string, v: string, readHull: HullReader)
    requires root != "" && root[|root| - 1] != '.' && root[|root| - 1] != '/' && '\n' !in root
    requires '.' !in v && '/' !in v && '\n' !in v
    ensures SpatialFlag(None, Some(root + ".shp[" + v + "]"), readHull)
      == Failure(UnlistedPolygonType(".shp[" + v + "]"))
  {
    ShapefileWithVariablesPath(root, v);
    BracketSuffixFails(root + ".shp[" + v + "]", readHull);
  }

  /** The instance "x.shp[a]". */
  lemma ShapefileWithVariablesExample(polygon: string, readHull: HullReader)
    requires polygon == "x.shp[a]"
    ensures SpatialFlag(None, Some(polygon), readHull) == Failure(UnlistedPolygonType(".shp[a]"))
  {
    assert polygon == "x" + ".shp[" + "a" + "]";
    assert ".shp[" + "a" + "]" == ".shp[a]";
    ShapefileWithVariablesFails("x", "a", readHull);
  }

  /** A file name with one of the six listed extensions, after a root that does not end in
      '.' or '/', is accepted, and the reader is chosen by that extension. */
  lemma ListedExtensionIsAccepted(root: string, ext: string)
    requires root != "" && root[|root| - 1] != '.' && root[|root| - 1] != '/'
    requires ext in {".shp", ".zip", ".kml", ".kmz", ".json", ".geojson"}
    ensures Extension(root + ext) == ext
    ensures SelectLoader(root + ext).Success?
  {
    assert |ext| >= 1 && ext[0] == '.' && '/' !in ext && '.' !in ext[1..] by {
      if ext == ".shp" { assert ext[1..] == "shp"; }
      else if ext == ".zip" { assert ext[1..] == "zip"; }
      else if ext == ".kml" { assert ext[1..] == "kml"; }
      else if ext == ".kmz" { assert ext[1..] == "kmz"; }
      else if ext == ".json" { assert ext[1..] == "json"; }
      else { assert ext[1..] == "geojson"; }
    }
    PosixPath.SplitExtOf(root, ext);
  }

  /** A name such as "region.shp" is read as an unzipped shapefile. */
  lemma ShapefileIsAccepted(root: string)
    requires root != "" && root[|root| - 1] != '.' && root[|root| - 1] != '/'
    ensures SelectLoader(root + ".shp") == Success(Shapefile(false))
  {
    ListedExtensionIsAccepted(root, ".shp");
  }

  // ---------------------------------------------------------------------------------------
  // The spatial, temporal and page clauses
  // ---------------------------------------------------------------------------------------

  /** The polygon reader followed by the convex hull: the hull's exterior x and y
      coordinates (as text) for a reader, a file and the variables, or the failure. */
  type HullReader = (Loader, string, Option<seq<string>>) -> Result<(seq<string>, seq<string>), Exception>

  /** The spatial clause: the bounding box when one is given, else the polygon's convex hull,
      else nothing. */
  function SpatialFlag(bbox: Option<seq<string>>, polygon: Option<string>, readHull: HullReader)
    : (r: Result<string, Exception>)
    ensures Given(bbox) && |bbox.value| < 4 ==> r == Failure(IndexOutOfRange)
    ensures !Given(bbox) && Given(polygon) && ParsePolygonArgument(polygon.value).Failure? ==>
      r == Failure(ParsePolygonArgument(polygon.value).error)
    ensures (!Given(bbox) && Given(polygon) && ParsePolygonArgument(polygon.value).Success?
             && SelectLoader(polygon.value).Failure?) ==> r == Failure(SelectLoader(polygon.value).error)
    ensures (!Given(bbox) && Given(polygon) && ParsePolygonArgument(polygon.value).Success?
             && SelectLoader(polygon.value).Success?) ==>
      var arg := ParsePolygonArgument(polygon.value).value;
      var hull := readHull(SelectLoader(polygon.value).value, arg.file, arg.variables);
      hull.Failure? ==> r == Failure(hull.error)
    ensures !Given(bbox) && !Given(polygon) ==> r == Success("")
  {
    if Given(bbox) then
      if |bbox.value| < 4 then Failure(IndexOutOfRange)
      else Success("&bounding_box=" + BoundsText(bbox.value))
    else if Given(polygon) then
      var p := polygon.value;
      match ParsePolygonArgument(p)
      case Failure(e) => Failure(e)
      case Success(arg) =>
        match SelectLoader(p)
        case Failure(e) => Failure(e)
        case Success(loader) =>
          match readHull(loader, arg.file, arg.variables)
          case Failure(e) => Failure(e)
          case Success(hull) => Success("&polygon[]=" + PolygonText(hull.0, hull.1))
    else Success("")
  }

  /** A bounding box wins over a polygon, which is then not even read, and its clause decodes
      back to the box. */
  lemma BoundingBoxTakesPrecedence(bbox: seq<string>, polygon: Option<string>, readHull: HullReader,
                                   otherPolygon: Option<string>, otherHull: HullReader)
    requires |bbox| >= 4
    requires forall i :: 0 <= i < 4 ==> ',' !in bbox[i]
    ensures SpatialFlag(Some(bbox), polygon, readHull) == SpatialFlag(Some(bbox), otherPolygon, otherHull)
    ensures exists t :: (SpatialFlag(Some(bbox), polygon, readHull) == Success("&bounding_box=" + t)
                         && Split(t, ',') == Reorder(bbox[..4]))
  {
    BoundsTextRoundTrip(bbox);
    var t := BoundsText(bbox);
    assert SpatialFlag(Some(bbox), polygon, readHull) == Success("&bounding_box=" + t);
  }

  /** Without a bounding box, the polygon clause lists the hull's coordinates as
      x1,y1,...,xk,yk: 2 * min(|X|, |Y|) numbers. */
  lemma PolygonClause(polygon: string, readHull: HullReader, xs: seq<string>, ys: seq<string>)
    requires polygon != "" && '\n' !in polygon
    requires SelectLoader(polygon).Success?
    requires readHull(SelectLoader(polygon).value, polygon, None) == Success((xs, ys))
    requires Min(|xs|, |ys|) >= 1
    requires forall i :: 0 <= i < |xs| ==> ',' !in xs[i]
    requires forall i :: 0 <= i < |ys| ==> ',' !in ys[i]
    ensures exists t :: (SpatialFlag(None, Some(polygon), readHull) == Success("&polygon[]=" + t)
                         && Split(t, ',') == Interleave(xs, ys) && |Split(t, ',')| == 2 * Min(|xs|, |ys|))
  {
    AcceptedArgumentHasNoVariables(polygon);
    PolygonTextSplits(xs, ys);
    var t := PolygonText(xs, ys);
    assert SpatialFlag(None, Some(polygon), readHull) == Success("&polygon[]=" + t);
  }

  /** The example box lat 40..42, lon -100..-96 gives lon_min,lat_min,lon_max,lat_max. */
  lemma ExampleBoundingBox(readHull: HullReader)
    ensures SpatialFlag(Some(["40.000000", "-100.000000", "42.000000", "-96.000000"]), None, readHull)
      == Success("&bounding_box=" + ("-100.000000" + "," + "40.000000" + "," + "-96.000000" + "," + "42.000000"))
  {
    var b := ["40.000000", "-100.000000", "42.000000", "-96.000000"];
    assert Given(Some(b));
  }

  /** The date parser: the ISO form of a time bound, or None when it cannot be parsed. */
  type DateParser = string -> Option<string>

  /** The temporal clause, empty when no time range is given. The start is parsed before the
      end is looked up. */
  function TemporalFlag(time: Option<seq<string>>, isoformat: DateParser): (r: Result<string, Exception>)
    ensures !Given(time) ==> r == Success("")
    ensures Given(time) && r.Success? ==>
      |time.value| >= 2 && isoformat(time.value[0]).Some? && isoformat(time.value[1]).Some?
      && r.value == "&temporal=" + isoformat(time.value[0]).value + "," + isoformat(time.value[1]).value
    ensures Given(time) && |time.value| >= 2 && isoformat(time.value[0]).Some? && isoformat(time.value[1]).Some?
      ==> r.Success?
    ensures Given(time) && isoformat(time.value[0]).None? ==> r == Failure(DateParseError(time.value[0]))
    ensures Given(time) && isoformat(time.value[0]).Some? && |time.value| < 2 ==> r == Failure(IndexOutOfRange)
    ensures Given(time) && isoformat(time.value[0]).Some? && |time.value| >= 2 && isoformat(time.value[1]).None?
      ==> r == Failure(DateParseError(time.value[1]))
  {
    if !Given(time) then Success("")
    else
      var t := time.value;
      match isoformat(t[0])
      case None => Failure(DateParseError(t[0]))
      case Some(start) =>
        if |t| < 2 then Failure(IndexOutOfRange)
        else
          match isoformat(t[1])
          case None => Failure(DateParseError(t[1]))
          case Some(end) => Success("&temporal=" + start + "," + end)
  }

  /** The temporal clause carries the two parsed bounds, which split back apart at the comma
      when, as ISO timestamps never do, they hold none. */
  lemma TemporalClauseSplits(time: seq<string>, isoformat: DateParser)
    requires |time| >= 2 && isoformat(time[0]).Some? && isoformat(time[1]).Some?
    requires ',' !in isoformat(time[0]).value && ',' !in isoformat(time[1]).value
    ensures TemporalFlag(Some(time), isoformat).Success?
    ensures var f := TemporalFlag(Some(time), isoformat).value;
      |f| >= 10 && f[..10] == "&temporal="
      && Split(f[10..], ',') == [isoformat(time[0]).value, isoformat(time[1]).value]
  {
    var start, end := isoformat(time[0]).value, isoformat(time[1]).value;
    var f := TemporalFlag(Some(time), isoformat).value;
    assert f[10..] == Join([start, end], ',');
    SplitJoin([start, end], ',');
  }

  /** The clauses of one query, fixed for all its pages. */
  datatype QueryFlags = QueryFlags(product: string, version: string, spatial: string, temporal: string)

  /** The clauses in the order the code builds them; a spatial failure is raised before the
      time range is looked at. */
  function BuildQuery(product: string, version: Option<string>, bbox: Option<seq<string>>,
                      polygon: Option<string>, time: Option<seq<string>>,
                      readHull: HullReader, isoformat: DateParser): (r: Result<QueryFlags, Exception>)
    ensures SpatialFlag(bbox, polygon, readHull).Failure? ==> r == Failure(SpatialFlag(bbox, polygon, readHull).error)
    ensures SpatialFlag(bbox, polygon, readHull).Success? && TemporalFlag(time, isoformat).Failure? ==>
      r == Failure(TemporalFlag(time, isoformat).error)
    ensures r.Success? <==> SpatialFlag(bbox, polygon, readHull).Success? && TemporalFlag(time, isoformat).Success?
    ensures r.Success? ==> (r.value.version == "" <==> !Given(version))
    ensures r.Success? ==> r.value == QueryFlags(ProductFlag(product), VersionFlag(version),
                                                 SpatialFlag(bbox, polygon, readHull).value,
                                                 TemporalFlag(time, isoformat).value)
  {
    match SpatialFlag(bbox, polygon, readHull)
    case Failure(e) => Failure(e)
    case Success(spatial) =>
      match TemporalFlag(time, isoformat)
      case Failure(e) => Failure(e)
      case Success(temporal) => Success(QueryFlags(ProductFlag(product), VersionFlag(version), spatial, temporal))
  }

  /** Everything in a page URL before the page number: it starts with the host and ends with
      "&page_num=". */
  function PagePrefix(q: QueryFlags): (r: string)
    ensures |Host| + 10 <= |r| && r[..|Host|] == Host && r[|r| - 10..] == "&page_num="
  {
    Host + q.product + q.version + q.spatial + q.temporal
      + "&page_size=" + NatToString(PageSize) + "&page_num="
  }

  /** The URL of page `pageNum`: HOST, product, version, spatial, temporal, page size and page
      number, in that order. */
  function PageUrl(q: QueryFlags, pageNum: nat): (r: string)
    ensures |PagePrefix(q)| < |r| && r[..|PagePrefix(q)|] == PagePrefix(q)
    ensures IsDecimal(r[|PagePrefix(q)|..])
  {
    PagePrefix(q) + NatToString(pageNum)
  }

  /** The page number a page URL asks for: the digits after its last '='. */
  function PageNumberOf(url: string): Option<nat>
  {
    var k := LastIndex(url, '=');
    if k >= 0 && IsDecimal(url[k + 1..]) then Some(DecimalValue(url[k + 1..])) else None
  }

  /** The page URL of a built query: HOST, then the product, version, spatial and temporal
      clauses, the page size and the page number, in that order. */
  lemma PageUrlOfQuery(product: string, version: Option<string>, bbox: Option<seq<string>>,
                       polygon: Option<string>, time: Option<seq<string>>,
                       readHull: HullReader, isoformat: DateParser, pageNum: nat)
    requires BuildQuery(product, version, bbox, polygon, time, readHull, isoformat).Success?
    ensures PageUrl(BuildQuery(product, version, bbox, polygon, time, readHull, isoformat).value, pageNum)
      == Host + ProductFlag(product) + VersionFlag(version)
         + SpatialFlag(bbox, polygon, readHull).value + TemporalFlag(time, isoformat).value
         + "&page_size=" + NatToString(PageSize) + "&page_num=" + NatToString(pageNum)
  {
  }

  /** The page size is written "10". */
  lemma PageSizeText()
    ensures NatToString(PageSize) == "10"
  {
    assert NatToString(1) == "1";
    assert NatToString(10) == NatToString(1) + [DigitChar(0)];
  }

  /** Different products give different product clauses. */
  lemma ProductFlagInjective(a: string, b: string)
    requires ProductFlag(a) == ProductFlag(b)
    ensures a == b
  {
    assert a == ProductFlag(a)[12..];
  }

  /** A page URL names its page number last, and that number can be read back from it. */
  lemma PageNumberOfPageUrl(q: QueryFlags, pageNum: nat)
    ensures PageNumberOf(PageUrl(q, pageNum)) == Some(pageNum)
  {
    var prefix, digits := PagePrefix(q), NatToString(pageNum);
    var url := prefix + digits;
    assert prefix[|prefix| - 1] == '=';
    assert url[|prefix| - 1] == '=';
    assert forall j :: |prefix| <= j < |url| ==> url[j] == digits[j - |prefix|] && IsDigit(digits[j - |prefix|]);
    assert LastIndex(url, '=') == |prefix| - 1;
    assert url[|prefix|..] == digits;
    DecimalValueOfNatToString(pageNum);
  }

  /** Different pages of one query have different URLs. */
  lemma PageUrlsDiffer(q: QueryFlags, m: nat, n: nat)
    requires m != n
    ensures PageUrl(q, m) != PageUrl(q, n)
  {
    PageNumberOfPageUrl(q, m);
    PageNumberOfPageUrl(q, n);
  }
}
