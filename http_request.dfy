/**
 * The part of Go's `*http.Request` the signer touches: the method, the URL
 * as a string, its query already parsed into `url.Values`, and the header
 * map, which is the only thing the signer changes.
 */
module Http {
  import opened GoStrings

  /** `url.Values`: each query key with its values in the order they appear. */
  type Query = map<GoString, seq<GoString>>

  /** `http.Header`: each header name with its values. */
  type Header = map<GoString, seq<GoString>>

  /** What `URL.Query()` produces: every key it lists has at least one value. */
  predicate HasValues(q: Query) {
    forall k :: k in q ==> |q[k]| > 0
  }

  class Request {
    const httpMethod: GoString
    const url: GoString
    /** The parsed query of `url`. */
    const query: Query
    var header: Header

    constructor(httpMethod: GoString, url: GoString, query: Query)
      ensures this.httpMethod == httpMethod && this.url == url && this.query == query
      ensures header == map[]
    {
      this.httpMethod := httpMethod;
      this.url := url;
      this.query := query;
      header := map[];
    }

    /** `Header.Set`: the header `name` now holds `value` alone. */
    method SetHeader(name: GoString, value: GoString)
      modifies this
      ensures header == old(header)[name := [value]]
    {
      header := header[name := [value]];
    }
  }
}
