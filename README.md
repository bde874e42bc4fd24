# OAuth 1.0a request signing (go-oauth1 `sign.go`) in Dafny

This project models the signing pipeline of the Go package `oauth1`, file
`sign.go`, and proves properties of it. A `Signer` holds the consumer's
configuration. Each of its three flows (request token, access token,
authenticated request) does the following:

1. Builds the OAuth protocol parameters.
2. Computes the signature base string of section 3.4.1 of RFC 5849. This is
   the upper-cased method, the percent-encoded URL up to its first `?`, and
   the percent-encoded normalised parameter string, joined by `&`.
3. Signs the base string under the key `consumerSecret&tokenSecret`.
4. Adds `oauth_signature` to the parameters.
5. Sets an `Authorization: OAuth k=v, k=v, ...` header on the request.

Modules, one per file:

- `GoStrings` (`go_strings.dfy`): Go strings as byte sequences. Covers Go's
  byte-wise `<`, `strings.Join`, `strings.Split` on one byte, and ASCII
  `strings.ToUpper`.
- `Sorting` (`sorting.dfy`): the specification of a sorted key list, and
  `sort.Strings` as an in-place sort of an array.
- `PercentEncoding` (`percent_encoding.dfy`): the two properties the pipeline
  needs from an encoder, which are injectivity and never writing a given
  delimiter. It also has a reference encoder for section 3.6 of RFC 5849,
  with its decoder.
- `Normalization` (`normalization.dfy`): `encodeParams`, written as its three
  loops over a map, a key slice and a pair slice.
- `Http` (`http_request.dfy`): the request's method, URL, parsed query and
  header map.
- `BaseString` (`base_string.dfy`): `signatureBase`, with the merge of query
  and OAuth parameters.
- `Signing` (`signing.dfy`): the signing key of `signature`.
- `Header` (`header.dfy`): `authorizationHeader` and `setAuthorizationHeader`.
- `OAuthParams` (`oauth_params.dfy`): the parameter names, `basicOAuthParams`
  and the parameter set of each flow.
- `Decimal` (`decimal.dfy`): `strconv.FormatInt(n, 10)`.
- `Flows` (`signer.dfy`): the `Signer` class and its three methods.

Go's map iteration order is unspecified. Every loop over a map therefore
picks its next key with `:|`, so the proofs hold for every visiting order.

The percent-encoder `pe` is a parameter of the whole pipeline, because its
body is not in `sign.go`. The lemmas state what they assume of it. When `pe`
maps two keys to the same string, the entry the loop writes last wins, so the
result depends on the visiting order. `IsEncoding` describes every result
the loop can produce. `EncodingUnique` proves there is exactly one when `pe`
is injective.

The source departs from RFC 5849 in four places. The model keeps the source's
behaviour in each.

- The signing key joins the two secrets without percent-encoding them first,
  which section 3.4.2 asks for. `SigningKeyUnencodedClash` shows two secret
  pairs that share a key.
- A repeated query key contributes only its first value. Section 3.4.1.3.1
  includes all of them.
- Header values are not quoted, which section 3.5.1 asks for. Their order
  is whatever order Go visits the map in; the RFC sets no order either.
- The base string URI is the URL text before its first `?`. The scheme and
  host are not lower-cased and a default port is not removed, which section
  3.4.1.2 asks for.

## Model

| member | source | states |
|---|---|---|
| `GoStrings.BelowTotal` | sign.go:152 | Go's byte-wise string order is total. With `BelowIrreflexive`, `BelowAsymmetric` and `BelowTransitive` it is a strict total order, which `sort.Strings` relies on. |
| `GoStrings.BelowTransitive` | sign.go:152 | The byte-wise string order is transitive. |
| `GoStrings.SplitJoin` | sign.go:133 | Splitting at `c` undoes `strings.Join` with separator `c` when no part contains `c`. |
| `GoStrings.SplitAround` | sign.go:119 | `strings.Split` divides at every separator: the pieces of `a+c+b` are the pieces of `a` followed by those of `b`. |
| `GoStrings.ToUpper` | sign.go:118 | The result has the input's length. Each byte is upper-cased when it is an ASCII lower-case letter and is otherwise unchanged. |
| `GoStrings.Join` | sign.go:165 | `strings.Join`: a non-empty list's result starts with its first part, followed by the separator when there are at least two parts. `SplitJoin` and `JoinSplit` make `Split` its inverse. |
| `GoStrings.Split` | sign.go:119 | `strings.Split` on one byte: there is at least one piece, even for empty input, and no piece contains the separator. |
| `GoStrings.JoinSplit` | sign.go:119 | Joining the pieces of `Split(s, c)` with `c` gives `s` back, so splitting loses nothing. |
| `GoStrings.JoinThree` | sign.go:132-133 | Joining three parts puts the separator between consecutive parts and nowhere else. |
| `Sorting.SortedSeq` | sign.go:146-152 | The sorted key list of a set is strictly ascending, holds exactly the set's elements, and is as long as the set. |
| `Sorting.SortedSeqUnique` | sign.go:146-152 | Any strictly ascending listing of a set's elements is the sorted key list, so the listing is unique. |
| `Sorting.SortStrings` | sign.go:152 | `sort.Strings` leaves the array ascending and a permutation of what it held. |
| `Sorting.DistinctNonDescending` | sign.go:152 | An ascending sequence without repeats is strictly ascending. |
| `Sorting.PermutationDistinct` | sign.go:152 | Rearranging a sequence without repeats keeps it without repeats. |
| `PercentEncoding.PercentEncode` | sign.go:143 | The reference encoder writes only unreserved bytes and `%`. A char above 255 passes through, but no Go byte holds one. |
| `PercentEncoding.PercentRoundTrip` | sign.go:143 | Percent-decoding the encoding of any string gives the string back. |
| `PercentEncoding.PercentEncodeIsSafe` | sign.go:143 | The reference encoder is injective. It never writes a reserved byte other than `%`, so it never writes `&`, `=`, `,` or space. |
| `PercentEncoding.PercentEncodeAppend` | sign.go:143 | Encoding distributes over concatenation. |
| `PercentEncoding.PercentEncodeUnreserved` | sign.go:143 | A string of unreserved bytes is its own encoding. |
| `PercentEncoding.PercentEncodeReserved` | sign.go:143 | A reserved byte becomes `%` followed by its two upper-case hex digits. |
| `PercentEncoding.PercentEncodeExampleSpace` | sign.go:143 | `Ladies + Gentlemen` encodes as `Ladies%20%2B%20Gentlemen`: space is `%20` and never `+`. |
| `PercentEncoding.PercentEncodeExampleEquals` | sign.go:143 | `a=b` encodes as `a%3Db`. |
| `Normalization.EncodeEach` | sign.go:141-144 | The encoding loop's result is a possible encoding of the map: one key `pe(k)` per key `k`, each carrying the encoding of a value whose key encodes to it. |
| `Normalization.EncodingUnique` | sign.go:141-144 | With an injective encoder, every visiting order yields the same encoded map, `pe(k) := pe(v)` for each entry, with one entry per key. |
| `Normalization.EncodingAvoids` | sign.go:143 | An encoder that never writes `c` leaves `c` out of every encoded key and value. |
| `Normalization.EncodingFixed` | sign.go:141-144 | An injective encoder that keeps every key and value of a map as it is encodes the map as itself. |
| `Normalization.KeysOf` | sign.go:146-151 | The key slice has one slot per entry and lists every key exactly once. |
| `Normalization.SortedKeys` | sign.go:146-152 | After `sort.Strings`, the key slice is the sorted key list of the encoded map. |
| `Normalization.FormatPairs` | sign.go:154-157 | Slot `i` of the pair slice holds `k=v` for the `i`-th key. |
| `Normalization.EncodeParams` | sign.go:139-159 | `encodeParams` returns the `k=v` entries of a possible encoding, strictly ascending by encoded key, one per encoded key, joined by `&`. With an injective encoder the result is the parameter string of `pe(k) := pe(v)` for each entry, whatever the visiting order. |
| `Normalization.PairSplit` | sign.go:156 | An entry whose key and value have no `=` splits at `=` into exactly its key and value. |
| `Normalization.ParamStringPieces` | sign.go:154-158 | For a non-empty encoded map whose keys and values hold no `&` or `=`, the parameter string can be read back. Split at `&`, it gives the entries in ascending key order, and each entry split at `=` gives its key and value. |
| `Normalization.ParamStringTwo` | sign.go:152-158 | The parameter string of two entries lists the entry with the smaller key first. |
| `Normalization.ParamStringExample` | sign.go:136-138 | The parameters `{foo: bar, q: gopher}` give `foo=bar&q=gopher`. |
| `Normalization.ExampleKeysUnchanged` | sign.go:138 | The reference encoder keeps the example's keys `foo` and `q`. |
| `Normalization.ExampleValuesUnchanged` | sign.go:138 | The reference encoder keeps the example's values `bar` and `gopher`. |
| `Normalization.EncodeParamsExample` | sign.go:136-144 | Every encoding of `{foo: bar, q: gopher}`, by an injective encoder that keeps these words, normalises to `foo=bar&q=gopher`. |
| `Normalization.ReferenceEncodeParamsExample` | sign.go:136-144 | With the reference encoder, every visiting order normalises `{foo: bar, q: gopher}` to `foo=bar&q=gopher`. |
| `Http.Request.SetHeader` | sign.go:78 | `Header.Set` makes the named header hold the one value, and leaves the rest of the header map unchanged. |
| `BaseString.MergeParams` | sign.go:121-129 | The merged set has every key of the query and of the OAuth parameters. An OAuth value overrides a query value, and a query key contributes only its first value. |
| `BaseString.MergeUnique` | sign.go:121-129 | Those three conditions determine the merged set, so the merge does not depend on visiting order. |
| `BaseString.BaseUri` | sign.go:119 | The base URI is the prefix of the URL before its first `?`. It has no `?`, and it is the whole URL when the URL has no `?`. |
| `BaseString.BaseUriDropsQuery` | sign.go:119 | For a URI without `?`, everything from the first `?` on is cut off. |
| `BaseString.SignatureBase` | sign.go:117-134 | The base string is `ToUpper(method) & pe(base URI) & pe(parameter string of the merged parameters)`. |
| `BaseString.SignatureBaseUnique` | sign.go:117-134 | With an injective encoder, the base string does not depend on map iteration order. |
| `BaseString.BaseStringSeparators` | sign.go:132-133 | With an encoder that never writes `&`, the base string split at `&` gives the method's pieces, then exactly the encoded URI and the encoded parameter string. Its only `&` are the method's and two separators. |
| `Signing.SigningKey` | sign.go:164-165 | The key is the consumer secret, then `&`, then the token secret. |
| `Signing.Signature` | sign.go:164-169 | The signature is the MAC of the message under the key `consumerSecret&tokenSecret`. The MAC is the parameter `mac`. |
| `Signing.SigningKeyEmptyToken` | sign.go:164-165 | With an empty token secret the key is `consumerSecret&`. The `&` is always there. |
| `Signing.SigningKeySplit` | sign.go:165 | A consumer secret without `&` is recovered by splitting the key at `&`. |
| `Signing.SigningKeyInjective` | sign.go:165 | For consumer secrets without `&`, different secret pairs give different keys. |
| `Signing.SigningKeyUnencodedClash` | sign.go:165 | The secrets are not encoded, so `a&` with `b` and `a` with `&b` share a key. |
| `Header.UnorderedPairs` | sign.go:92-97 | The pair slice holds the `k=v` entries of the encoded map, one per key, in the recorded visiting order. |
| `Header.AuthorizationHeader` | sign.go:85-99 | The header is `OAuth ` followed by the `k=v` entries of a possible encoding, each key once, in some order, joined by `, `. |
| `Header.SetAuthorizationHeader` | sign.go:76-79 | The request's Authorization header holds the composed header alone. Every other header is unchanged. |
| `Header.PairsOfAppend` | sign.go:92-97 | The entries of two key lists, one after the other, are the entries of their concatenation. |
| `Header.PairsAround` | sign.go:92-97 | Taking one key out of a key list takes exactly its entry out of the entries. |
| `Header.RemoveMatching` | sign.go:92-97 | Taking the same element out of two rearrangements of one another leaves rearrangements of one another. |
| `Header.PairsPermutation` | sign.go:92-97 | Listing the same keys in another order rearranges the entries. |
| `Header.OrderedPairsPermute` | sign.go:92-98 | The entries in any visiting order are the parameter string's entries, rearranged. |
| `Header.HeaderHoldsSortedPairs` | sign.go:85-99 | With an injective encoder, the header is `OAuth ` followed by a permutation of the parameter-string entries of the encoded parameters, joined by `, `. |
| `OAuthParams.NamesDistinct` | sign.go:19-27 | The parameter names are pairwise different. |
| `OAuthParams.BasicOAuthParams` | sign.go:103-111 | `basicOAuthParams` gives exactly five parameters: the consumer key, `HMAC-SHA1`, `strconv.FormatInt` of the timestamp, the nonce and `1.0`. There is no `oauth_signature`. |
| `OAuthParams.RequestTokenParams` | sign.go:40-41 | The request-token flow adds exactly `oauth_callback` with the configured callback URL. It adds no signature. |
| `OAuthParams.AccessTokenParams` | sign.go:52-54 | The access-token flow adds exactly `oauth_token` and `oauth_verifier`. It adds no signature. |
| `OAuthParams.AuthenticatedParams` | sign.go:65-66 | The authenticated-request flow adds exactly `oauth_token`. It adds no signature. |
| `Decimal.FormatNat` | sign.go:107 | The decimal form is non-empty, all digits, and has no leading zero. |
| `Decimal.FormatInt` | sign.go:107 | `strconv.FormatInt(n, 10)`: the text starts with `-` exactly when `n` is negative. `FormatNat` fixes the digits, and `FormatIntRoundTrip` reads the value back. |
| `Decimal.FormatIntRoundTrip` | sign.go:107 | Reading the decimal form of an integer back gives the integer. |
| `Decimal.FormatIntInjective` | sign.go:107 | Different timestamps have different decimal forms. |
| `Flows.Signer.SetRequestTokenAuthHeader` | sign.go:39-47 | The flow does the following: 1. It computes the base string from the request-token parameters, without a signature. 2. It signs under the consumer secret and an empty token secret. 3. It adds exactly `oauth_signature` and leaves every other entry unchanged. 4. It sets the header composed from the signed parameters. |
| `Flows.Signer.SetAccessTokenAuthHeader` | sign.go:51-60 | The same, with the access-token parameters, signed under the request token's secret. |
| `Flows.Signer.SetRequestAuthHeader` | sign.go:64-72 | The same, with the authenticated-request parameters, signed under the access token's secret. |
| `Flows.SignatureAdded` | sign.go:45 | Adding the signature to a set without one adds exactly it and changes nothing else. |
| `Flows.RequestTokenSignature` | sign.go:44 | The request-token flow signs under the key `consumerSecret&`. |

## Left out

- HMAC-SHA1 and base64 (sign.go:166-169) are foreign cryptographic library calls. They are a parameter `mac` from key and message to signature text.
- `nonce()` (sign.go:173-177) and `epoch()` (sign.go:180-182) read randomness and the clock. The flows take the nonce and the clock reading as parameters.
- `PercentEncode` is called by `sign.go` but is not part of this model. The pipeline takes the encoder as a parameter `pe`. Lemmas that need injectivity, or need `&` and `=` never to be written, say so in their `requires`. `PercentEncoding.PercentEncode` is a reference encoder for section 3.6 of RFC 5849, and is not claimed to match the package's own.
- `PercentEncoding.PercentEncode`: model strings hold one char per byte, so only chars below 256 occur in them. For totality, the reference encoder passes any char above 255 through unchanged.
- `net/http` is not modelled. The request is its method, its URL text, its query already parsed into `url.Values`, and its header map. `req.URL.String()` and `req.URL.Query()` parsing (sign.go:119, 122) are not modelled, so the query is not tied to the URL text. `Header.Set` key canonicalisation is left out; `Authorization` is already canonical.
- `sort.Strings` (sign.go:152) is the Go library's own algorithm. An insertion sort with the same contract stands in for it.
- `Sorting.SortStrings`: states ascending order and permutation. It does not state the library's internal stability or complexity, which `sign.go` does not rely on.
- `GoStrings.ToUpper`: upper-cases ASCII letters only. Go's `strings.ToUpper` also upper-cases non-ASCII UTF-8 letters, which HTTP methods do not contain.
- `Decimal.FormatInt`: the timestamp is an unbounded integer. The `int64` range of `epoch()` is not enforced.
- The `Config`, `RequestToken` and `Token` types are not part of this model. Only the fields `sign.go` reads are kept, as the datatypes `Config` and `Token`.
- `value[0]` on an empty value list panics in Go (sign.go:124). The model requires every query key to have a value, as `URL.Query()` guarantees.
- Body parameters (the TODO at sign.go:126) are handled by neither the source nor the model.
- `Flows.Signer.SetRequestTokenAuthHeader`, `Flows.Signer.SetAccessTokenAuthHeader`, `Flows.Signer.SetRequestAuthHeader`: the Go methods return nothing. The model returns the base string, the signed parameters and the header as ghost results, so that their contracts can name them.
- Go maps are references. The model passes parameter maps by value, so "does not mutate `oauthParams`" (sign.go:84, 116) holds by construction. In the flows, the local map is updated by reassignment.
