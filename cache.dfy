/**
 * The time-to-live request cache of src/Cache.ts.
 *
 * The in-memory index `requests` maps the fingerprint of a URL to the time
 * (in milliseconds) at which it was last written; the payloads live in files
 * named by the same fingerprint. Expiry is lazy: an expired entry is only
 * reported as a miss and is never removed from the index or the disk.
 */
module Cache {
  /** A fingerprint of a URL: in the source, the hex SHA-1 digest used as a file name. */
  type Key = string

  /** What `get` yields: the stored payload, `null` (a miss), or a rejected file read. */
  datatype Outcome = Hit(payload: string) | Miss | ReadError

  /**
   * An entry stamped at `last` is expired at `now` once more than the TTL has
   * elapsed since the stamp; `FindAtBoundaryHits` and `ExpiryIsPermanent` prove
   * that it is live at the boundary itself and that once expired it stays expired.
   */
  predicate Expired(last: int, expirySeconds: int, now: int)
    ensures Expired(last, expirySeconds, now) <==> now - last > expirySeconds * 1000
  {
    now > last + expirySeconds * 1000
  }

  /**
   * The outcome of `get` for `key` at time `now`, given the index, the files
   * on disk and the TTL. A live index entry whose file is missing makes the
   * file read fail.
   */
  function Find(requests: map<Key, int>, files: map<Key, string>, expirySeconds: int,
                key: Key, now: int): (r: Outcome)
    ensures key !in requests ==> r == Miss
    ensures r.Hit? ==> key in requests && key in files && r.payload == files[key]
    ensures r == ReadError ==> key in requests && key !in files && !Expired(requests[key], expirySeconds, now)
  {
    if key !in requests then Miss
    else if Expired(requests[key], expirySeconds, now) then Miss
    else if key in files then Hit(files[key])
    else ReadError
  }

  /** A key the index has never seen is a miss, whatever the disk holds. */
  lemma FindAbsentMisses(requests: map<Key, int>, files: map<Key, string>, e: int, key: Key, now: int)
    requires key !in requests
    ensures Find(requests, files, e, key, now) == Miss
  {
  }

  /** An entry strictly past its TTL is a miss, although its file may still exist. */
  lemma FindExpiredMisses(requests: map<Key, int>, files: map<Key, string>, e: int, key: Key, now: int)
    requires key in requests && now > requests[key] + e * 1000
    ensures Find(requests, files, e, key, now) == Miss
  {
  }

  /** Exactly at `last + e * 1000` the entry is still live. */
  lemma FindAtBoundaryHits(requests: map<Key, int>, files: map<Key, string>, e: int, key: Key, now: int)
    requires key in requests && key in files && now == requests[key] + e * 1000
    ensures Find(requests, files, e, key, now) == Hit(files[key])
  {
  }

  /** A hit happens exactly when the index has a live entry and its file exists; it returns the file. */
  lemma FindHitIff(requests: map<Key, int>, files: map<Key, string>, e: int, key: Key, now: int)
    ensures Find(requests, files, e, key, now).Hit?
        <==> key in requests && now <= requests[key] + e * 1000 && key in files
    ensures Find(requests, files, e, key, now).Hit? ==> Find(requests, files, e, key, now).payload == files[key]
  {
  }

  /** Once expired, an entry stays a miss at every later time until it is written again. */
  lemma ExpiryIsPermanent(requests: map<Key, int>, files: map<Key, string>, e: int, key: Key,
                          now: int, later: int)
    requires key in requests && Expired(requests[key], e, now) && now <= later
    ensures Find(requests, files, e, key, later) == Miss
  {
  }

  /**
   * Round trip: after writing `p` under `key` at `t0`, a read at `t` returns
   * `p` exactly when `t` is not past the TTL, and is a miss otherwise.
   */
  lemma RoundTrip(requests: map<Key, int>, files: map<Key, string>, e: int, key: Key,
                  p: string, t0: int, t: int)
    ensures Find(requests[key := t0], files[key := p], e, key, t)
         == if t <= t0 + e * 1000 then Hit(p) else Miss
  {
  }

  /** Writing one key leaves the outcome for every other key as it was. */
  lemma WriteIsolated(requests: map<Key, int>, files: map<Key, string>, e: int, key: Key,
                      other: Key, p: string, t0: int, now: int)
    requires other != key
    ensures Find(requests[key := t0], files[key := p], e, other, now)
         == Find(requests, files, e, other, now)
  {
  }

  /**
   * The index is stamped before the file is written, so a write that fails
   * still renews the entry: a read within the new TTL returns the file that
   * was already on disk, or fails if there was none.
   */
  lemma FailedWriteRenewsOldFile(requests: map<Key, int>, files: map<Key, string>, e: int,
                                 key: Key, t0: int, t: int)
    requires t <= t0 + e * 1000
    ensures Find(requests[key := t0], files, e, key, t)
         == if key in files then Hit(files[key]) else ReadError
  {
  }

  /** While every indexed key has a file, no read fails (the `Consistent` property of `RequestCache`). */
  lemma IndexedFilesNeverFail(requests: map<Key, int>, files: map<Key, string>, e: int, key: Key, now: int)
    requires requests.Keys <= files.Keys
    ensures Find(requests, files, e, key, now) != ReadError
  {
  }

  /** The cache object of the source: its index, its TTL and the files it writes. */
  class RequestCache {
    /** The URL fingerprint (SHA-1 in the source), a deterministic function of the URL. */
    const fingerprint: string -> Key
    /** The TTL in seconds, parsed once by the constructor. */
    const cacheExpirySeconds: int
    /** Fingerprint to the time of the last write, in milliseconds. */
    var requests: map<Key, int>
    /** The cache directory: file contents by fingerprint. */
    var files: map<Key, string>

    /** Every indexed key has a file on disk (it holds as long as every write succeeds). */
    ghost predicate Consistent()
      reads this
    {
      requests.Keys <= files.Keys
    }

    /**
     * A new cache starts with an empty index; the cache directory keeps
     * whatever files earlier runs left there. They are not read until a `Set`
     * stamps their key; if that write fails, the old file is what `Get` returns
     * (`FailedWriteRenewsOldFile`).
     */
    constructor (fingerprint: string -> Key, cacheExpirySeconds: int, disk: map<Key, string>)
      ensures this.fingerprint == fingerprint && this.cacheExpirySeconds == cacheExpirySeconds
      ensures requests == map[] && files == disk
      ensures Consistent()
    {
      this.fingerprint := fingerprint;
      this.cacheExpirySeconds := cacheExpirySeconds;
      requests := map[];
      files := disk;
    }

    /** `get`: reads the index and, for a live entry, the file. It changes nothing. */
    method Get(url: string, now: int) returns (r: Outcome)
      ensures r == Find(requests, files, cacheExpirySeconds, fingerprint(url), now)
      ensures Consistent() ==> r != ReadError
    {
      var key := fingerprint(url);
      if key in requests {
        var lastRequestTime := requests[key];
        if now > lastRequestTime + cacheExpirySeconds * 1000 {
          r := Miss;
        } else if key in files {
          r := Hit(files[key]);
        } else {
          r := ReadError;
        }
      } else {
        r := Miss;
      }
    }

    /**
     * `set`: stamps the index with `now`, then writes the file. Whether the
     * disk accepts the write is `writeSucceeds`; `written` reports it to the
     * caller, as the rejected promise does in the source.
     */
    method Set(url: string, payload: string, now: int, writeSucceeds: bool) returns (written: bool)
      modifies this
      ensures requests == old(requests)[fingerprint(url) := now]
      ensures files == if writeSucceeds then old(files)[fingerprint(url) := payload] else old(files)
      ensures written == writeSucceeds
      ensures old(Consistent()) && writeSucceeds ==> Consistent()
    {
      var key := fingerprint(url);
      requests := requests[key := now];
      if writeSucceeds {
        files := files[key := payload];
      }
      written := writeSucceeds;
    }
  }

  /** Before the first `set`, every `get` is a miss, even for URLs whose files are on disk. */
  method FreshCacheMisses(fingerprint: string -> Key, e: int, disk: map<Key, string>,
                          url: string, now: int) returns (r: Outcome)
    ensures r == Miss
  {
    var c := new RequestCache(fingerprint, e, disk);
    r := c.Get(url, now);
  }

  /**
   * A `set` of `u` followed by a `get` of `v` on a new cache: a hit with
   * the stored payload exactly when `v` has the fingerprint of `u` (the same
   * URL, or a colliding one) and the read is not past the TTL.
   */
  method SetThenGet(fingerprint: string -> Key, e: int, disk: map<Key, string>,
                    u: string, v: string, p: string, t0: int, t: int) returns (r: Outcome)
    ensures r == if fingerprint(v) == fingerprint(u) && t <= t0 + e * 1000 then Hit(p) else Miss
  {
    var c := new RequestCache(fingerprint, e, disk);
    var _ := c.Set(u, p, t0, true);
    r := c.Get(v, t);
  }

  /** Two successive writes of one URL: the later payload and the later timestamp win. */
  method SetTwiceThenGet(fingerprint: string -> Key, e: int, disk: map<Key, string>,
                         u: string, p1: string, p2: string, t1: int, t2: int, t: int)
    returns (r: Outcome)
    ensures r == if t <= t2 + e * 1000 then Hit(p2) else Miss
  {
    var c := new RequestCache(fingerprint, e, disk);
    var _ := c.Set(u, p1, t1, true);
    var _ := c.Set(u, p2, t2, true);
    r := c.Get(u, t);
  }

  /** After an expired `get`, the entry is still in the index and its file is still on disk. */
  method ExpiredEntryRemains(fingerprint: string -> Key, e: int, disk: map<Key, string>,
                             u: string, p: string, t0: int, t: int)
    returns (r: Outcome, c: RequestCache)
    requires t > t0 + e * 1000
    ensures r == Miss
    ensures c.requests == map[fingerprint(u) := t0]
    ensures c.files == disk[fingerprint(u) := p]
  {
    c := new RequestCache(fingerprint, e, disk);
    var _ := c.Set(u, p, t0, true);
    r := c.Get(u, t);
  }
}
