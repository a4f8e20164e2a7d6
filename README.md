# GEDI subsetting client: a Dafny model

This project models the logic of the GEDI subsetting client, which:

- queries NASA's Common Metadata Repository (CMR) for the granules of a product that match a
  bounding box or polygon and a time range;
- pages through the answers;
- keeps, for every granule name, its id, location, revision and download URL;
- downloads from LP.DAAC each granule whose local copy does not match the MD5 checksum in
  the archive's XML metadata.

The model also covers the helpers this needs and the fix-up `main` applies to the argument list
before `argparse` sees it:

- `url_split`;
- `even`;
- the hash and checksum comparison;
- `from_lpdaac`'s outcome.

Modules:

- `Results`: `Option`, `Result`, and the exceptions the program raises, as a datatype.
- `Text`: the string functions the program uses:
  - `rfind`;
  - `rstrip`;
  - `split`/`join` on one character, with their round trips;
  - decimal digits and the `{:d}` rendering of naturals.
- `PosixPath`: `posixpath.split`, `os.path.splitext` and `posixpath.join`/`os.path.join`, as
  CPython defines them for '/'.
- `Utilities`:
  - `url_split`, with its termination condition;
  - `even`;
  - `get_hash` over an abstract disk and abstract hash functions;
  - `compare_checksums` over an abstract XML fetch;
  - the effect of `from_lpdaac` on the disk.
- `Query`:
  - the product, version, spatial and temporal clauses;
  - the regular expression that separates a polygon file from its variable list;
  - the dispatch on the file extension;
  - the page URL.
- `Search`:
  - the `while FLAG` paging loop, as a method proved against a recursive specification;
  - the insertion-ordered granule dictionary.
- `Sync`:
  - the local path of a granule and the download-or-skip rule;
  - the serial download loop, as a method proved against a specification;
  - `multiprocess_sync`.
- `Argv`: the in-place rewrite of negative-number arguments, as a method on an `array`.

Inputs the program gets from the outside world are parameters of the model:

- the catalog's answer to a page URL;
- the granule URL behind a CMR location;
- the checksum XML;
- the archive's file contents;
- the local disk (a map from path to bytes);
- the MD5/SHA-1 functions;
- the date parser;
- the convex-hull reader.

## Model

| member | source | states |
|---|---|---|
| PosixPath.Split | lpdaac_subset_gedi.py:213 | `posixpath.split`: the tail is the text after the last '/', the head is a prefix that ends before it. The head has its trailing slashes stripped unless it is all slashes, and only slashes lie between the head and the tail. The head is empty exactly when there is no '/'. |
| PosixPath.SplitExt | lpdaac_subset_gedi.py:120 | `os.path.splitext`: root and extension concatenate to the path. The extension is empty or starts with '.', and holds no '/' and no further '.'. It is non-empty exactly when the last '.' comes after the last '/' and something other than dots stands between them, and then the root ends just before that '.'. |
| PosixPath.SplitExtOf | lpdaac_subset_gedi.py:120 | A root that does not end in '.' or '/', followed by an extension of one leading '.' and no '/', splits back into that root and that extension. |
| PosixPath.Join | lpdaac_subset_gedi.py:214 | `os.path.join`: the result ends with the second component, and an absolute second component replaces the first. A relative second component follows the first, with one '/' between them unless the first is empty or already ends with '/'. |
| Text.LastIndex | subsetting_tools/utilities.py:77 | `rfind`, which `posixpath.split` uses: -1 exactly when the character is absent, otherwise the index of an occurrence with none after it. |
| Text.RStrip | subsetting_tools/utilities.py:77 | `rstrip`, which strips the head `posixpath.split` returns: a prefix that does not end with the character, followed in the input only by that character. |
| Text.RStripOf | subsetting_tools/utilities.py:77 | Stripping a run of the character from a text that does not end with it gives that text back. |
| Text.Split | lpdaac_subset_gedi.py:125 | `str.split` on one character gives at least one piece, and no piece holds the separator. |
| Text.JoinEnds | lpdaac_subset_gedi.py:146 | `str.join` starts with the first piece and ends with the last. With two pieces or more, the separator follows the first. |
| Text.JoinSplit | lpdaac_subset_gedi.py:125 | Joining the pieces of `s.split(c)` with `c` gives back `s`. |
| Text.SplitJoin | lpdaac_subset_gedi.py:125 | Splitting a join of `c`-free pieces gives back the pieces. |
| Text.NatToString | lpdaac_subset_gedi.py:169-170 | `'{0:d}'.format(n)` is a non-empty string of decimal digits, with a leading '0' only for 0. |
| Text.DecimalValueOfNatToString | lpdaac_subset_gedi.py:169-170 | The decimal rendering used for the page size and number reads back as the same number. |
| Text.NatToStringInjective | lpdaac_subset_gedi.py:169-170 | Different numbers are written differently. |
| Utilities.UrlSplitDivergesOnDoubleSlash | subsetting_tools/utilities.py:77-82 | For a string starting with "//", the head `url_split` recurses on again starts with "//" and is not a stopping head. The recursion never ends. |
| Utilities.SplitHeadShrinks | subsetting_tools/utilities.py:77-82 | On any other input, the head is a stopping head or strictly shorter and again free of a leading "//". So `url_split` terminates there. |
| Utilities.UrlSplit | subsetting_tools/utilities.py:69-82 | `url_split` returns at least one piece. |
| Utilities.UrlSplitNoSlash | subsetting_tools/utilities.py:80-81 | A string with no '/' gives the one-element tuple of itself. |
| Utilities.UrlSplitLast | subsetting_tools/utilities.py:77-82 | The last piece is the text after the final '/'. The exceptions are a string without '/' and a string whose head is "http:" or "https:", which give the whole string. |
| Utilities.UrlSplitStep | subsetting_tools/utilities.py:77-82 | Splitting `a + "/" + x` gives the pieces of `a` followed by `x`. |
| Utilities.UrlSplitOfUrl | subsetting_tools/utilities.py:77-82 | For `scheme://host/s1/.../sn` with non-empty segments, the pieces are `scheme://host, s1, ..., sn`. Joining them with '/' reproduces the URL. |
| Utilities.UrlSplitOfAbsolutePath | subsetting_tools/utilities.py:80-82 | A leading single '/' is dropped: `/x/s1/.../sn` gives `x, s1, ..., sn`. |
| Utilities.UrlSplitDropsLeadingSlash | subsetting_tools/utilities.py:80-82 | `url_split("/a/b")` is `(a, b)`. |
| Utilities.Even | subsetting_tools/utilities.py:105-113 | `even(n)` is even, at most `n`, and `n - even(n)` is 0 or 1. |
| Utilities.EvenIsLargestEvenBelow | subsetting_tools/utilities.py:113 | Every even number at most `n` is at most `even(n)`. |
| Utilities.EvenIdempotent | subsetting_tools/utilities.py:113 | `even(even(n)) == even(n)`. |
| Utilities.EvenOfNegativeOdd | subsetting_tools/utilities.py:113 | Floor division: `even(-3) == -4`, `even(-1) == -2`, `even(3) == 2`. |
| Utilities.Digest | subsetting_tools/utilities.py:52-55 | Only "MD5" and "sha1" give a digest, each from its own hash function. Any other name gives no value. |
| Utilities.GetHash | subsetting_tools/utilities.py:36-66 | An in-memory buffer is hashed directly and an existing file is hashed from its bytes. A missing path gives "". An unknown algorithm gives no value, except for a missing path. |
| Utilities.LocalMd5 | subsetting_tools/utilities.py:312 | The local hash `compare_checksums` uses is what `get_hash` gives a file path with the default MD5. |
| Utilities.CompareChecksums | subsetting_tools/utilities.py:272-314 | An unreachable XML raises `XML download error` for that document. A document that does not parse raises a syntax error for that document. A document declaring a checksum count other than one raises an unpacking error carrying that count. Otherwise the result is true exactly when the local MD5 equals the declared checksum. |
| Utilities.MissingFileNeverMatches | subsetting_tools/utilities.py:312-314 | A missing local file never matches a non-empty remote checksum. |
| Utilities.TransferMessage | subsetting_tools/utilities.py:257 | The transfer string is the remote file, " -->", a newline and a tab, the local file and a newline. |
| Utilities.FromLpdaac | subsetting_tools/utilities.py:250-269 | A failed request raises `Download error from <remote>`. Otherwise the local path holds the remote bytes and every other file on the disk is unchanged. |
| Query.ProductFlag | lpdaac_subset_gedi.py:107 | The product clause is "?short_name=" followed by the product name. |
| Query.ProductFlagInjective | lpdaac_subset_gedi.py:107 | Different products give different product clauses. |
| Query.VersionFlag | lpdaac_subset_gedi.py:108 | The version clause is empty exactly when no version is given. Otherwise it is "&version=" followed by the version. |
| Query.Reorder | lpdaac_subset_gedi.py:113-114 | The reorder from (lat, lon) to (lon, lat) gives four bounds again. `Query.ReorderPermutes` shows they are the same four. |
| Query.ReorderPermutes | lpdaac_subset_gedi.py:113-114 | The reordered bounding box holds the same multiset of bounds as the given one: none is lost or duplicated. |
| Query.ReorderInvolution | lpdaac_subset_gedi.py:113-114 | The reorder (lat, lon) to (lon, lat) of the bounding box is its own inverse. |
| Query.BoundsText | lpdaac_subset_gedi.py:114 | The bounds text is the reordered first four entries of the box, joined with commas. |
| Query.BoundsTextRoundTrip | lpdaac_subset_gedi.py:114 | Splitting the bounds text on ',' gives `BBOX[1], BBOX[0], BBOX[3], BBOX[2]`, and reordering that gives back `BBOX[0..4]`. |
| Query.Interleave | lpdaac_subset_gedi.py:145-146 | The coordinate list has two entries per pair of `zip(X, Y)`, up to the shorter of the two. |
| Query.PairTexts | lpdaac_subset_gedi.py:146 | The list comprehension over `zip(X, Y)` has one entry per pair, and entry `k` is `X[k]`, ',' and `Y[k]`. |
| Query.InterleaveAt | lpdaac_subset_gedi.py:146 | The polygon coordinate list holds `X[i]` at `2i` and `Y[i]` at `2i+1` for every pair of `zip(X, Y)`. |
| Query.InterleaveElements | lpdaac_subset_gedi.py:146 | Each element of the coordinate list comes from `X` or from `Y`. |
| Query.PolygonText | lpdaac_subset_gedi.py:146 | The polygon text, the comma-join of the "x,y" pairs, is the comma-join of the interleaved coordinates. |
| Query.PolygonTextSplits | lpdaac_subset_gedi.py:146 | The polygon text splits back into the interleaved coordinates, 2·min(\|X\|, \|Y\|) of them. |
| Query.CloseBracket | lpdaac_subset_gedi.py:122 | The lazy `(.*?)\]$` tail stops only at a ']' after which `$` matches (at the end or before a final newline). |
| Query.MatchFromMatches | lpdaac_subset_gedi.py:122 | A match that the lazy group finds from index `i` on accounts for the string: group 1 is a prefix at least `i` long. It is followed by `$`, or by '[', group 3, ']' and `$`. |
| Query.MatchPolygonArgument | lpdaac_subset_gedi.py:122 | When `re.match` succeeds, its groups account for the whole argument in the same way. |
| Query.MatchWithoutNewline | lpdaac_subset_gedi.py:122 | On a string without newlines, the regular expression captures the text before the first '[' and the bracket contents when the string ends in ']' after a '['. Otherwise it captures the whole string and no group. |
| Query.NewlineInsideDoesNotMatch | lpdaac_subset_gedi.py:122 | A newline before the last character makes `re.match` return None. |
| Query.ParsePolygonArgument | lpdaac_subset_gedi.py:122-125 | The parse fails exactly when the pattern does not match. |
| Query.ParsePolygonArgumentWithoutNewline | lpdaac_subset_gedi.py:122-125 | With a bracket suffix, the file is the text before the first '[' and the variables are the bracket contents split on ','. Otherwise the file is the whole argument and there are no variables. |
| Query.EmptyBracketsGiveOneEmptyName | lpdaac_subset_gedi.py:125 | `a[]` gives file `a` and the variable list `['']`. |
| Query.Extension | lpdaac_subset_gedi.py:120 | The extension is a suffix of the argument, empty or starting with '.', with no '/'. |
| Query.SelectLoader | lpdaac_subset_gedi.py:127-139 | ".shp"/".zip" select the shapefile reader, with the zip flag exactly for ".zip". ".kml"/".kmz" select the KML reader, with the kmz flag exactly for ".kmz". ".json"/".geojson" select GeoJSON. Any other extension raises `Unlisted polygon type`. |
| Query.ListedExtensionIsAccepted | lpdaac_subset_gedi.py:120-137 | A file name whose root does not end in '.' or '/', followed by any of the six listed extensions, has that extension and is accepted. |
| Query.ShapefileIsAccepted | lpdaac_subset_gedi.py:127-130 | Such a root followed by ".shp" selects the unzipped shapefile reader. |
| Query.BracketSuffixIsRejected | lpdaac_subset_gedi.py:120-139 | The extension is taken from the unstripped argument, so any argument ending in ']' raises. |
| Query.ShapefileWithVariablesIsRejected | lpdaac_subset_gedi.py:120-139 | `x.shp[a]` raises. |
| Query.BracketSuffixFails | lpdaac_subset_gedi.py:118-139 | A polygon argument without a newline that ends in ']' (and no bounding box) makes the spatial clause fail as an unlisted type, named by the extension of the whole argument. |
| Query.ShapefileWithVariablesFails | lpdaac_subset_gedi.py:118-139 | For every root not ending in '.' or '/' and every variable list without '.' or '/' (neither holding a newline), the spatial clause of `root.shp[v]` fails as the unlisted type `.shp[v]`, although `root.shp` alone is accepted. |
| Query.ShapefileWithVariablesExample | lpdaac_subset_gedi.py:118-139 | The spatial clause of `x.shp[a]` fails as the unlisted type `.shp[a]`. |
| Query.AcceptedArgumentHasNoVariables | lpdaac_subset_gedi.py:120-139 | An argument the dispatch accepts is read with the whole argument as the file name and no variable list. |
| Query.SpatialFlag | lpdaac_subset_gedi.py:111-150 | The errors come in the source's order. A bounding box with fewer than four entries raises `IndexError`. Without a bounding box, a polygon argument that does not parse raises the parse error. A parsed argument whose type is not listed raises the dispatch error. A listed one whose reader fails raises the reader's error. With neither a bounding box nor a polygon, the spatial clause is empty. |
| Query.BoundingBoxTakesPrecedence | lpdaac_subset_gedi.py:111-118 | With a bounding box, the spatial clause does not depend on the polygon or the hull reader and is "&bounding_box=" followed by the reordered bounds. |
| Query.PolygonClause | lpdaac_subset_gedi.py:118-147 | With only a polygon, the spatial clause is "&polygon[]=" followed by the interleaved hull coordinates. |
| Query.TemporalFlag | lpdaac_subset_gedi.py:153-159 | Without a time range, the temporal clause is empty. With two entries whose dates both parse, it is built and is "&temporal=" followed by both parsed dates, comma-separated. The errors come in the source's order: an unparsable start date, then a missing second entry (`IndexError`), then an unparsable end date. |
| Query.TemporalClauseSplits | lpdaac_subset_gedi.py:155-157 | For ISO dates without commas, the text after "&temporal=" splits at the comma into the start date and the end date. |
| Query.BuildQuery | lpdaac_subset_gedi.py:107-159 | The query is built exactly when the spatial and temporal clauses are. A spatial failure is the query's failure. After a successful spatial clause, a temporal failure is the query's failure. A built query holds the product, version, spatial and temporal clauses. |
| Query.PagePrefix | lpdaac_subset_gedi.py:169-173 | Everything before the page number starts with the host and ends with "&page_num=". |
| Query.PageUrl | lpdaac_subset_gedi.py:169-173 | The page URL is that prefix followed by decimal digits. |
| Query.PageUrlOfQuery | lpdaac_subset_gedi.py:162-173 | The page URL of a built query is the host, then the product, version, spatial and temporal clauses, the page size and the page number, in that order. |
| Query.PageSizeText | lpdaac_subset_gedi.py:163-169 | The page size is written "10". |
| Query.PageNumberOfPageUrl | lpdaac_subset_gedi.py:169-173 | The page URL ends with "&page_num=" followed by the page number, which reads back from it. |
| Query.PageUrlsDiffer | lpdaac_subset_gedi.py:169-173 | Different pages have different URLs. |
| Search.Insert | lpdaac_subset_gedi.py:198 | `granules[name] = ...`: the entry takes the new value. A new name goes last and an existing name keeps its place. Validity of the order is kept. |
| Search.Resolve | lpdaac_subset_gedi.py:187-198 | A reference resolves exactly when its location gives exactly one URL. The entry is `[id, location, revision_id, url]`, and otherwise the unpacking error raises. |
| Search.AddReferences | lpdaac_subset_gedi.py:186-198 | Entering a page's references keeps the table's name order valid. |
| Search.AddReferencesKeys | lpdaac_subset_gedi.py:186-198 | The keys after a page are the keys before it plus the names on the page, and the old order is a prefix of the new one. |
| Search.AddReferencesLastWins | lpdaac_subset_gedi.py:198 | A duplicate name is overwritten: the last reference with that name decides its entry. |
| Search.AddReferencesKeep | lpdaac_subset_gedi.py:198 | An entry whose name is not on the page is unchanged. |
| Search.AddReferencesFailure | lpdaac_subset_gedi.py:192-196 | A page fails exactly when one of its references does not resolve, with the error of the first that does not. |
| Search.Harvest | lpdaac_subset_gedi.py:167-200 | A search from page `pageNum` requests at least one page and none beyond the page at which the catalog is known to stop. |
| Search.SearchGranules | lpdaac_subset_gedi.py:163-200 | The paging loop computes the recursive search. It requests exactly the URLs of pages 1, 2, ... in order, and returns the granule table or the first error. |
| Search.AddPage | lpdaac_subset_gedi.py:186-198 | The per-reference loop computes the page's effect on the table. |
| Search.HarvestPassesNonEmptyPages | lpdaac_subset_gedi.py:185-200 | Every page before the last one requested is non-empty, so `page_num` advances only after a non-empty page. |
| Search.HarvestEndsOnEmptyPage | lpdaac_subset_gedi.py:185 | A successful search ends on an empty page. Together with `Search.HarvestPassesNonEmptyPages`, the number of requests is one more than the number of leading non-empty pages. |
| Search.EmptyFirstPage | lpdaac_subset_gedi.py:163-185 | An empty first page gives an empty granule table after one request, whatever the bound on the catalog. |
| Search.HitsAreIgnored | lpdaac_subset_gedi.py:181 | Two catalogs that differ only in `hits` give the same search. |
| Search.AdderKeepsOrder | lpdaac_subset_gedi.py:186-198 | Entering a page keeps the earlier order as a prefix and keeps the table valid. |
| Search.HarvestKeepsOrder | lpdaac_subset_gedi.py:163-200 | A search keeps the insertion order valid. Names found earlier stay in front. |
| Search.AdderAddsNames | lpdaac_subset_gedi.py:186-198 | Entering a page adds exactly the names on it. |
| Search.HarvestKeys | lpdaac_subset_gedi.py:163-200 | The keys of a successful search are exactly the names on the pages before the first empty one. |
| Search.AdderLastWins | lpdaac_subset_gedi.py:186-198 | Entering a page maps each name to the granule of its last reference on the page. |
| Search.AdderKeepsOthers | lpdaac_subset_gedi.py:186-198 | Entering a page leaves the entries of names not on the page unchanged. |
| Search.HarvestKeepsEntry | lpdaac_subset_gedi.py:167-200 | An entry whose name is on none of the pages a search enters keeps its granule to the end. |
| Search.HarvestKeepsPageEntry | lpdaac_subset_gedi.py:167-200 | A name a page enters keeps that page's granule to the end when no later page names it again. |
| Search.HarvestLastWins | lpdaac_subset_gedi.py:167-200 | Across pages, a name ends with the granule of its last reference on the last page, before the empty one, that names it. |
| Search.SearchLastWins | lpdaac_subset_gedi.py:163-200 | The same for the search the paging loop runs, from page 1 with an empty table. |
| Sync.LocalPath | lpdaac_subset_gedi.py:213-214 | Computing the local path fails when the URL splits into fewer than two pieces (`IndexError`), or when it starts with "//" (unbounded recursion). |
| Sync.LocalPathOfUrl | lpdaac_subset_gedi.py:213-214 | For `scheme://host/s1/.../sn` with n ≥ 2, the local path is `DIRECTORY/s(n-1)/sn`. |
| Sync.LocalPathSplits | lpdaac_subset_gedi.py:214 | That path splits back into the directory, the folder and the file name. |
| Sync.ChecksumDocument | lpdaac_subset_gedi.py:215 | The checksum document is the granule's URL followed by ".xml". |
| Sync.SyncGranule | lpdaac_subset_gedi.py:213-219 | A serial step that succeeds had a local path, and one that downloads nothing leaves the disk unchanged. |
| Sync.SyncGranuleRule | lpdaac_subset_gedi.py:213-219 | The serial step downloads exactly when the checksum comparison is false, and then the local file holds the remote bytes. A true comparison skips the granule and leaves the disk unchanged. Comparison and download errors propagate. |
| Sync.MultiprocessSync | lpdaac_subset_gedi.py:248-261 | The transfer string is returned only on a successful download. A skipped or failed download gives None, and a comparison error propagates. |
| Sync.MultiprocessAgreesWithSerial | lpdaac_subset_gedi.py:248-261 | On the same granule, the parallel worker and the serial step leave the same disk and agree on whether a download happened. A download error the serial loop raises is swallowed by the worker. |
| Sync.SyncAll | lpdaac_subset_gedi.py:209-219 | The serial loop downloads at most one file per granule. |
| Sync.SyncInSeries | lpdaac_subset_gedi.py:207-219 | The serial loop over the granule table, in insertion order, computes the recursive serial run. |
| Sync.SyncEach | lpdaac_subset_gedi.py:209-219 | The loop body applied to each URL in turn computes the serial run, stopping at the first error. |
| Sync.SeriesStep | lpdaac_subset_gedi.py:209-219 | One loop iteration: an error ends the run, a download is recorded, a skip is not. |
| Sync.SyncGranuleEstablishes | lpdaac_subset_gedi.py:213-219 | For a consistent archive, one step leaves the local copy matching its checksum. |
| Sync.SyncAllFrame | lpdaac_subset_gedi.py:209-219 | The serial loop touches no file other than the granules' local paths. |
| Sync.SyncAllSucceeds | lpdaac_subset_gedi.py:209-219 | Over a consistent archive, the serial loop raises nothing. |
| Sync.SyncAllEstablishes | lpdaac_subset_gedi.py:209-219 | Over a consistent archive with distinct local paths, every granule ends in sync. |
| Sync.InSyncDependsOnLocalFile | lpdaac_subset_gedi.py:213-216 | Whether a granule is in sync depends only on its own local file. |
| Sync.SyncGranuleInSyncIsNoop | lpdaac_subset_gedi.py:216 | A granule in sync is skipped. |
| Sync.SyncAllInSyncIsNoop | lpdaac_subset_gedi.py:209-219 | When every granule is in sync, the loop downloads nothing and leaves the disk unchanged. |
| Sync.SecondRunDownloadsNothing | lpdaac_subset_gedi.py:209-219 | A second run over the same consistent archive downloads nothing. |
| Argv.FixNegativeArguments | lpdaac_subset_gedi.py:268-269 | The in-place loop rewrites every argument it reaches and stops at the first that raises `IndexError`. It reports where, and leaves the rest as they were. |
| Argv.FixArg | lpdaac_subset_gedi.py:269 | An argument is kept or gets one leading space. |
| Argv.FixArgChanges | lpdaac_subset_gedi.py:269 | An argument changes exactly when it is '-' followed by a digit, and then only by a leading space. The result never needs the fix again. |
| Argv.FixArguments | lpdaac_subset_gedi.py:268-269 | The loop keeps the length, and the arguments from the first raising one on are left as they were. |
| Argv.FixArgumentsChanges | lpdaac_subset_gedi.py:268-269 | The length is kept. Exactly the reached arguments that look like negative numbers change, each becoming " " followed by the argument. |
| Argv.FixArgumentsIdempotent | lpdaac_subset_gedi.py:268-269 | A second pass changes nothing and stops at the same place. |
| Argv.RaisesExactly | lpdaac_subset_gedi.py:269 | The arguments that raise `IndexError` are exactly "" and "-". |
| Argv.StopsAtRaising | lpdaac_subset_gedi.py:268-269 | The loop stops at the first raising argument, which with everything after it stays as it was. |

## Left out

- HTTP and authentication (`urlopen`, `build_opener`, cookies, SSL, `check_connection`) are not modelled. The catalog, the location lookup, the checksum XML and the archive are function parameters.
- Timeouts and the many exception types `urlopen` can raise are not modelled. Each failure is one `Exception` value.
- File-system effects are not modelled: `makedirs`, `chmod`, chunked streaming and `abspath` in `from_lpdaac`, and `copy`. The disk is a map from path to bytes, and `from_lpdaac` sets one entry.
- `hashlib` is not modelled. MD5 and SHA-1 are uninterpreted functions of the bytes.
- lxml parsing and XPath are not modelled. A page is given as its hits and reference records. The checksum XML is given as unreachable, malformed, or the list of the checksums it holds.
- The multiprocessing pool (`apply_async`, `close`, `join`) is not modelled, because it is concurrency. Only the per-granule worker `multiprocess_sync` is, and it is compared with the serial step.
- `'{:f}'` formatting of coordinates is not modelled, because it is floating point. Coordinates are opaque strings, and `even` is modelled on integers.
- `Query.BoundsTextRoundTrip` assumes comma-free coordinate strings, which `'{:f}'` output always is.
- `Query.PolygonTextSplits` assumes comma-free coordinate strings and a hull with at least one vertex.
- `Query.BoundingBoxTakesPrecedence` assumes comma-free bounds for its second part, the split of the bounds text.
- `Query.PolygonClause` assumes comma-free hull coordinates, a hull with at least one vertex, and a polygon argument without newlines.
- `Query.TemporalClauseSplits` assumes parsed dates without commas, which ISO 8601 output always is.
- `dateutil` parsing and `get_unix_time` are not modelled. The date parser is a parameter.
- The `subsetting_tools.polygon` readers and the convex hull are not modelled, because that module is not part of this model. The hull reader is a parameter.
- Credentials and the command line are not modelled: netrc, getpass, argparse, `expanduser`.
- `str.isdigit` is modelled for ASCII digits only. Other Unicode digits are not.
- Verbose printing and the traceback output of `multiprocess_sync` are not modelled.
- Python's recursion limit is not modelled. `Sync.LocalPath` reports the unbounded recursion of `url_split` on a "//" prefix as a `RecursionLimit` error.
- `Utilities.UrlSplit` requires that its input not start with "//", because the source's recursion does not terminate there. `Utilities.UrlSplitDivergesOnDoubleSlash` states why.
- `Search.SearchGranules` takes a ghost page number at which the catalog answers with an empty page or an error. The source's loop has no such bound and would run forever on a catalog that never stops.
- `Sync.SyncInSeries` loops over the table's insertion order, and each URL is looked up in the table. This is the order `dict.items()` yields from Python 3.7 on. Under Python 2, which the source also supports (subsetting_tools/utilities.py:28-33), the order is arbitrary; the model fixes the insertion order.
