# node-cors-proxy: a Dafny model of the cache, the configuration and the request handler

node-cors-proxy is an HTTP proxy. It re-serves the `http(s)://` URL that is
written in its own request path. This project models three parts of it:

- `RequestCache` (src/Cache.ts), a TTL cache. It keeps an in-memory index from a URL's
  fingerprint (a SHA-1 digest) to the time of the last write, and keeps the payloads in
  files named by that fingerprint. `get` misses when the key is absent, and also when
  `now > last + cacheExpirySeconds * 1000`; otherwise it reads the file. `set` stamps the
  index with `now` and then writes the file. Expiry is lazy: nothing is ever removed.
- The configuration (src/environment.ts). `envVars` is built from the process
  environment: the URL prefix to ignore, the expiry with its default `'3600'`, the
  comma-separated extra top-level domains (`parseCsv`), and the case-insensitive
  `CORS_ALL` flag.
- The request handler (src/main.ts). `handleRequest` drops the first character of the
  request path to get the target URL. It checks the URL with `isValidHost`. An invalid
  URL gets 404 and a fixed message. A valid URL is fetched upstream once, and the body
  (or the thrown error) becomes the response body.

Files:

- `wrappers.dfy`: `Option`, which stands for `undefined`/`null`.
- `cache.dfy`: module `Cache`. It holds the pure outcome function `Find`, lemmas about it,
  the class `RequestCache`, and client methods that exercise the class contracts.
- `environment.dfy`: module `Environment`. It holds trim, split and join, `ParseCsv`,
  lower-casing, `CorsAll`, and `LoadEnvVars`.
- `proxy.dfy`: module `Proxy`. It holds `IsValidHost`, `TargetUrl`, and `HandleRequest`.

Abstract parameters:

- The SHA-1 fingerprint is the constructor argument `fingerprint: string -> Key`.
- The clock is the `now` argument of `Get` and `Set`.
- The cache directory is the field `files`. The constructor receives whatever files are
  already on disk. The index always starts empty, so older files are not read until a
  `set` stamps their key; if that write fails, the old file is what `get` returns
  (`FailedWriteRenewsOldFile`).
- Whether a file write succeeds is the `writeSucceeds` argument of `Set`.
- `parseInt` is a function argument of `LoadEnvVars`.
- The top-level-domain regular expression is the predicate `tldTest`.
- The upstream HTTP client is the function `upstream: string -> Fetched`.

In this revision `handleRequest` never consults `RequestCache`. It has no 400 or 500
answers, no `/cache_info` route, and no `localhost` or extra-host exemption.
No modelled file reads `envVars`: `src/main.ts` does not import `./environment`.
`EXTRA_TLDS` is meant to extend the allowed top-level domains (src/environment.ts:10);
that would happen inside the top-level-domain pattern module, which `tldTest` abstracts.

## Model

| member | source | states |
|---|---|---|
| `Cache.Expired` | src/Cache.ts:26 | an entry stamped at `last` is expired at `now` iff strictly more than `expiry*1000` ms have elapsed since the stamp (boundary and permanence proved in `FindAtBoundaryHits`, `ExpiryIsPermanent`) |
| `Cache.Find` | src/Cache.ts:24-35 | the decision of `get`: a hit returns the indexed key's file; an unindexed key is a miss; a read error needs a live entry with no file (full characterisation in `FindHitIff`, `RoundTrip`, `WriteIsolated`) |
| `Cache.FindAbsentMisses` | src/Cache.ts:24-35 | a key with no index entry is a miss, whatever files are on disk |
| `Cache.FindExpiredMisses` | src/Cache.ts:26-28 | an entry strictly past `last + expiry*1000` is a miss, although its file still exists |
| `Cache.FindAtBoundaryHits` | src/Cache.ts:26-30 | at exactly `now == last + expiry*1000` the entry is still a hit and returns its file |
| `Cache.FindHitIff` | src/Cache.ts:24-31 | a hit happens iff the key is indexed, `now <= last + expiry*1000`, and the file exists; a hit returns the file's contents |
| `Cache.ExpiryIsPermanent` | src/Cache.ts:26-28 | once expired, an entry stays a miss at every later time until it is written again (lazy expiry never revives it) |
| `Cache.RoundTrip` | src/Cache.ts:21-43 | after writing `p` under a key at `t0`, a read at `t` returns `p` iff `t <= t0 + expiry*1000`, and is a miss otherwise |
| `Cache.WriteIsolated` | src/Cache.ts:38-42 | writing one key leaves the outcome for every other key unchanged |
| `Cache.FailedWriteRenewsOldFile` | src/Cache.ts:41-42 | the index is stamped before the write, so after a failed write a read not past the TTL returns the file that was already there, or fails if there was none |
| `Cache.IndexedFilesNeverFail` | src/Cache.ts:29-30 | while every indexed key has a file, no read fails |
| `Cache.RequestCache.constructor` | src/Cache.ts:12-19 | the index starts empty, the TTL is fixed, and the cache directory keeps its existing files |
| `Cache.RequestCache.Get` | src/Cache.ts:21-36 | the result is `Find` of the current index, files and TTL at the fingerprint of the URL; while every indexed key has a file, the result is never a read error; `Get` has no modifies clause, so it changes neither the index nor the files |
| `Cache.RequestCache.Set` | src/Cache.ts:38-43 | the index entry for the fingerprint becomes `now`; the file becomes the payload iff the write succeeds; nothing else changes; the failure is reported; consistency of index and files is kept by every successful write |
| `Cache.FreshCacheMisses` | src/Cache.ts:12-35 | on a new cache every `get` is a miss, even when files from an earlier run exist |
| `Cache.SetThenGet` | src/Cache.ts:21-51 | on a new cache, after `set(u, p, t0)`, `get(v, t)` returns `p` iff `v` has the same fingerprint as `u` (equal URLs always do) and `t <= t0 + expiry*1000`; otherwise it is a miss |
| `Cache.SetTwiceThenGet` | src/Cache.ts:38-43 | after two sets of one URL, the last payload and the last timestamp decide the result |
| `Cache.ExpiredEntryRemains` | src/Cache.ts:21-43 | an expired `get` is a miss, and the entry stays in the index and its file stays on disk |
| `Environment.TrimStartSpec` | src/environment.ts:26 | trimming the start keeps the suffix of the input that begins at its first non-whitespace character; everything removed is whitespace |
| `Environment.TrimEndSpec` | src/environment.ts:26 | trimming the end keeps the prefix of the input that ends at its last non-whitespace character; everything removed is whitespace |
| `Environment.Trim` | src/environment.ts:26 | the trimmed text neither starts nor ends with whitespace |
| `Environment.TrimDecomposes` | src/environment.ts:26 | the input is the trimmed text with only whitespace before and after it |
| `Environment.TrimUnique` | src/environment.ts:26 | conversely, any text that neither starts nor ends with whitespace, surrounded by whitespace only, trims back to that text |
| `Environment.TrimIdempotent` | src/environment.ts:26 | trimming twice gives the same as trimming once |
| `Environment.Split` | src/environment.ts:26 | `split(',')` gives at least one segment, and no segment contains a comma |
| `Environment.SplitLength` | src/environment.ts:26 | there is exactly one segment more than there are commas in the input |
| `Environment.JoinSplit` | src/environment.ts:26 | the segments joined with commas give back the input, so they are its comma-separated pieces, in order |
| `Environment.SplitJoin` | src/environment.ts:26 | conversely, comma-free pieces joined with commas split back into the same pieces |
| `Environment.ParseCsv` | src/environment.ts:24-27 | an absent or empty value gives `[]`; a non-empty value gives (number of commas) + 1 entries; no entry starts or ends with whitespace |
| `Environment.ParseCsvSegments` | src/environment.ts:26 | entry `i` is segment `i` of the input, trimmed; the segments are comma-free and rejoin into the input |
| `Environment.ToLower` | src/environment.ts:34 | lower-casing keeps the length and maps each character on its own |
| `Environment.CorsAll` | src/environment.ts:34 | the flag is true iff the value is set and spells "true" in any case (using `LowerIsTrue`) |
| `Environment.Truthy` | src/environment.ts:5-8 | `process.env[name] \|\| …`: absent iff the variable is unset or empty; otherwise the raw value |
| `Environment.LowerIsTrue` | src/environment.ts:34 | `toLowerCase()` of a string equals "true" exactly when the string spells "true" with each letter in either case |
| `Environment.LoadEnvVars` | src/environment.ts:5-35 | `ignoreUrlPrefix` is undefined iff the variable is unset or empty, and is the raw value otherwise; the expiry parses `'3600'` when unset or empty, and the given text otherwise; the TLD list is `ParseCsv` of `EXTRA_TLDS` (so it has the entry count, order and trimming proved there), and is empty iff `EXTRA_TLDS` is unset or empty; `corsAll` holds iff `CORS_ALL` spells "true" ignoring case |
| `Proxy.IsValidHost` | src/main.ts:33-36 | validity implies an `http://` or `https://` prefix and acceptance of the whole URL by the pattern (both directions in `IsValidHostIff`) |
| `Proxy.NoSchemeIsInvalid` | src/main.ts:33-36 | a URL with neither prefix `http://` nor `https://` is invalid, whatever the TLD pattern says |
| `Proxy.IsValidHostIff` | src/main.ts:33-36 | a URL is valid iff it is `http://` or `https://` followed by anything, and the TLD pattern holds on the whole URL string |
| `Proxy.FtpIsInvalid` | src/main.ts:34-35 | every `ftp://` URL is invalid |
| `Proxy.TargetUrl` | src/main.ts:17 | the target is the request path with exactly its first character removed (an empty path gives an empty target) |
| `Proxy.HandleRequest` | src/main.ts:16-31 | an invalid target gives status 404, the body `"Invalid hostname!! - " + url`, and no upstream request; a valid target gives exactly one upstream GET, for that URL, and no status assignment; the body is the upstream body on success and the thrown error on failure |

## Left out

- Filesystem I/O is not modelled. This covers `existsSync`/`mkdirSync` of the cache
  directory, `path.join`, and the UTF-8 decoding. The cache directory is a map from key to
  text.
- A read of a missing file is the `ReadError` outcome. Other read failures are not modelled.
- A failed write leaves the file unchanged in the model. A partially written file is not
  modelled.
- SHA-1 is not modelled. The fingerprint is an arbitrary deterministic function, and
  collision resistance is not assumed. `SetThenGet` states what a collision would do.
- The wall clock (`_getNow`) is not modelled. Time is a parameter in milliseconds.
- `parseInt` is an abstract function. Its NaN result is not modelled: with NaN, the strict
  comparison in `get` is always false, so entries would never expire. The double-precision
  arithmetic of `last + expiry * 1000` is modelled with unbounded integers.
- `RequestCache.cacheExpirySeconds` is a `const` in the model. The source never assigns it
  outside the constructor.
- The top-level-domain regular expression is the predicate `tldTest`. Its module
  `./regexp-top-level-domain` is not part of this model.
- `ToLower`: only ASCII letters are lower-cased. JavaScript's `toLowerCase` maps all of
  Unicode. No non-ASCII character lower-cases to `t`, `r`, `u` or `e`, and lower-casing
  never shortens a string, so `CORS_ALL`'s outcome is the same either way.
- Koa is not modelled: the app, the middleware chain, `next()` and `app.listen`. The
  framework's defaults are not modelled either: its 404 default status, and setting 200
  when a body is assigned. `Response.status` records only what the handler itself assigns.
- The `request-promise-native` client is not modelled. The upstream GET is the function
  `upstream`. A non-2xx answer or a transport failure is its `Threw` outcome.
- Reading `process.env`, and the `console.log` of the parsed settings, are not modelled.
  The environment is a map.
- Asynchronous interleaving is not modelled. Neither are concurrent requests racing on the
  shared cache. The model is sequential.
