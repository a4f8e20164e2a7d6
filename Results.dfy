/** Optional values and results with an error; an error stands for a raised Python exception. */
module Results {

  datatype Option<+T> = None | Some(value: T)

  datatype Result<+T, +E> = Success(value: T) | Failure(error: E)
}

/** The exceptions the modelled code raises or lets through, one constructor per cause. */
module Exceptions {

  datatype Exception =
    /** `Exception('XML download error: ...')`: the checksum document could not be fetched. */
    | XmlDownloadError(url: string)
    /** lxml could not parse a fetched document. */
    | XmlSyntaxError(url: string)
    /** `ValueError` from a one-element tuple unpacking that found `count` elements. */
    | UnpackError(count: nat)
    /** `Exception('Download error from ...')`: the granule itself could not be fetched. */
    | DownloadError(url: string)
    /** `RecursionError`: `url_split` recursed without end on this string. */
    | RecursionLimit(text: string)
    /** `IndexError` from indexing a sequence or a string out of range. */
    | IndexOutOfRange
    /** `AttributeError` from calling `.group` on the `None` that `re.match` returned. */
    | NoMatch(text: string)
    /** `IOError('Unlisted polygon type (...)')`. */
    | UnlistedPolygonType(extension: string)
    /** `HTTPError`/`URLError` (or a malformed response) from a catalog or location request. */
    | RequestFailed(url: string)
    /** dateutil could not parse a time bound. */
    | DateParseError(text: string)
    /** The polygon reader or the convex hull failed on this file. */
    | PolygonReadError(file: string)
}
