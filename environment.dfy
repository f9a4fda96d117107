/**
 * The configuration of src/environment.ts: four settings read once from the
 * process environment, with their defaults, the comma-separated list parser
 * and the case-insensitive CORS flag.
 */
module Environment {
  import opened Wrappers

  /** The value `CACHE_EXPIRY_SECONDS` falls back to. */
  const DEFAULT_CACHE_EXPIRY_SECONDS := "3600"

  /** The parsed settings. `ignoreUrlPrefix` is None for `undefined`. */
  datatype EnvVars = EnvVars(
    ignoreUrlPrefix: Option<string>,
    cacheExpirySeconds: int,
    extraTLDs: seq<string>,
    corsAll: bool)

  // ---------------------------------------------------------------------------
  // String.prototype.trim

  /** The characters ECMAScript's trim removes: WhiteSpace (TAB, VT, FF, space, NBSP, ZWNBSP and category Zs) and LineTerminator (LF, CR, LS, PS). */
  predicate IsWhitespace(c: char) {
    || c == '\t' || c == '\U{000B}' || c == '\U{000C}' || c == ' ' || c == '\U{00A0}' || c == '\U{FEFF}'
    || c == '\U{1680}' || ('\U{2000}' <= c <= '\U{200A}') || c == '\U{202F}' || c == '\U{205F}' || c == '\U{3000}'
    || c == '\n' || c == '\r' || c == '\U{2028}' || c == '\U{2029}'
  }

  /** `s` neither starts nor ends with whitespace. */
  predicate Trimmed(s: string) {
    s == [] || (!IsWhitespace(s[0]) && !IsWhitespace(s[|s| - 1]))
  }

  ghost predicate AllWhitespace(s: string) {
    forall k :: 0 <= k < |s| ==> IsWhitespace(s[k])
  }

  /** `s.trimStart()`: `s` without its leading whitespace. */
  function TrimStart(s: string): string {
    if s != [] && IsWhitespace(s[0]) then TrimStart(s[1..]) else s
  }

  /** `s.trimEnd()`: `s` without its trailing whitespace. */
  function TrimEnd(s: string): string {
    if s != [] && IsWhitespace(s[|s| - 1]) then TrimEnd(s[..|s| - 1]) else s
  }

  /** TrimStart keeps the suffix of `s` that starts at its first non-whitespace character; everything it drops is whitespace. */
  lemma {:induction false} TrimStartSpec(s: string)
    ensures |TrimStart(s)| <= |s|
    ensures TrimStart(s) == s[|s| - |TrimStart(s)|..]
    ensures AllWhitespace(s[..|s| - |TrimStart(s)|])
    ensures TrimStart(s) == [] || !IsWhitespace(TrimStart(s)[0])
  {
    if s != [] && IsWhitespace(s[0]) {
      var r := TrimStart(s[1..]);
      TrimStartSpec(s[1..]);
      assert TrimStart(s) == r;
      var n := |s| - |r|;
      assert r == s[n..] by {
        assert s[1..][n - 1..] == s[n..];
      }
      assert AllWhitespace(s[..n]) by {
        forall k | 1 <= k < n ensures IsWhitespace(s[..n][k]) {
          assert s[..n][k] == s[1..][..n - 1][k - 1];
        }
      }
    }
  }

  /** TrimEnd keeps the prefix of `s` that ends at its last non-whitespace character; everything it drops is whitespace. */
  lemma {:induction false} TrimEndSpec(s: string)
    ensures |TrimEnd(s)| <= |s|
    ensures TrimEnd(s) == s[..|TrimEnd(s)|]
    ensures AllWhitespace(s[|TrimEnd(s)|..])
    ensures TrimEnd(s) == [] || !IsWhitespace(TrimEnd(s)[|TrimEnd(s)| - 1])
  {
    if s != [] && IsWhitespace(s[|s| - 1]) {
      var init := s[..|s| - 1];
      var r := TrimEnd(init);
      TrimEndSpec(init);
      assert init[..|r|] == s[..|r|];
      assert s[|r|..] == init[|r|..] + [s[|s| - 1]];
    }
  }

  /** `s.trim()`: the trimmed text neither starts nor ends with whitespace (TrimDecomposes gives the rest). */
  function Trim(s: string): (r: string)
    ensures Trimmed(r)
  {
    var t := TrimStart(s);
    TrimStartSpec(s);
    var r := TrimEnd(t);
    TrimEndSpec(t);
    assert r != [] ==> r[0] == t[0];
    r
  }

  /**
   * `s` is its trimmed text with only whitespace before and after it; the
   * text before it is what TrimStart removes.
   */
  lemma TrimDecomposes(s: string)
    ensures var r, lead := Trim(s), |s| - |TrimStart(s)|;
      && 0 <= lead
      && lead + |r| <= |s|
      && r == s[lead..lead + |r|]
      && AllWhitespace(s[..lead])
      && AllWhitespace(s[lead + |r|..])
  {
    var t := TrimStart(s);
    var r := TrimEnd(t);
    var lead := |s| - |t|;
    assert Trim(s) == r;
    assert AllWhitespace(s[..lead]) by {
      TrimStartSpec(s);
    }
    assert 0 <= lead && lead + |r| <= |s| && r == s[lead..lead + |r|] && AllWhitespace(s[lead + |r|..]) by {
      TrimStartSpec(s);
      TrimEndSpec(t);
      assert t == s[lead..];
      SuffixSlices(s, lead, |r|);
    }
  }

  /** Slicing a suffix of `s` is slicing `s` itself, shifted. */
  lemma SuffixSlices(s: string, lead: nat, n: nat)
    requires lead + n <= |s|
    ensures s[lead..][..n] == s[lead..lead + n]
    ensures s[lead..][n..] == s[lead + n..]
  {
  }

  lemma {:induction false} TrimStartOf(pre: string, t: string)
    requires AllWhitespace(pre) && (t == [] || !IsWhitespace(t[0]))
    ensures TrimStart(pre + t) == t
  {
    if pre != [] {
      assert (pre + t)[1..] == pre[1..] + t;
      TrimStartOf(pre[1..], t);
    } else {
      assert pre + t == t;
    }
  }

  lemma {:induction false} TrimEndOf(t: string, post: string)
    requires AllWhitespace(post) && (t == [] || !IsWhitespace(t[|t| - 1]))
    ensures TrimEnd(t + post) == t
  {
    if post != [] {
      assert (t + post)[..|t + post| - 1] == t + post[..|post| - 1];
      TrimEndOf(t, post[..|post| - 1]);
    } else {
      assert t + post == t;
    }
  }

  /**
   * Trim removes exactly the surrounding whitespace: whenever `s` is some
   * text that neither starts nor ends with whitespace, surrounded by
   * whitespace only, trimming `s` gives that text back.
   */
  lemma TrimUnique(pre: string, mid: string, post: string)
    requires AllWhitespace(pre) && AllWhitespace(post)
    requires Trimmed(mid)
    ensures Trim(pre + mid + post) == mid
  {
    if mid == [] {
      assert pre + mid + post == pre + post;
      assert AllWhitespace(pre + post);
      TrimStartOf(pre + post, []);
      assert pre + post + [] == pre + post;
    } else {
      assert pre + mid + post == pre + (mid + post);
      TrimStartOf(pre, mid + post);
      TrimEndOf(mid, post);
    }
  }

  /** Trimming twice trims no more than trimming once. */
  lemma TrimIdempotent(s: string)
    ensures Trim(Trim(s)) == Trim(s)
  {
    var r := Trim(s);
    assert [] + r + [] == r;
    TrimUnique([], r, []);
  }

  // ---------------------------------------------------------------------------
  // String.prototype.split(',') and Array.prototype.join(',')

  /** `s.split(',')`: the segments between commas, in order; there is always at least one. */
  function Split(s: string): (r: seq<string>)
    ensures |r| >= 1
    ensures forall i :: 0 <= i < |r| ==> ',' !in r[i]
  {
    if s == [] then [""]
    else
      var rest := Split(s[1..]);
      if s[0] == ',' then [""] + rest
      else [[s[0]] + rest[0]] + rest[1..]
  }

  /** There is one segment more than there are commas. */
  lemma {:induction false} SplitLength(s: string)
    ensures |Split(s)| == multiset(s)[','] + 1
  {
    if s != [] {
      SplitLength(s[1..]);
      assert s == [s[0]] + s[1..];
      assert multiset(s) == multiset([s[0]]) + multiset(s[1..]);
    }
  }

  /** `parts.join(',')`. */
  function Join(parts: seq<string>): string {
    if |parts| == 0 then ""
    else if |parts| == 1 then parts[0]
    else parts[0] + "," + Join(parts[1..])
  }

  lemma AppendAssoc(a: string, b: string, c: string)
    ensures a + b + c == a + (b + c)
  {
  }

  lemma JoinCons(p: string, ps: seq<string>)
    requires |ps| >= 1
    ensures Join([p] + ps) == p + "," + Join(ps)
  {
    assert ([p] + ps)[1..] == ps;
  }

  lemma JoinExtendHead(c: char, ps: seq<string>)
    requires |ps| >= 1
    ensures Join([[c] + ps[0]] + ps[1..]) == [c] + Join(ps)
  {
    var head := [c] + ps[0];
    var qs := [head] + ps[1..];
    if |ps| > 1 {
      var rest := Join(ps[1..]);
      assert Join(qs) == head + "," + rest by {
        assert qs[0] == head && qs[1..] == ps[1..];
      }
      AppendAssoc([c], ps[0], ",");
      AppendAssoc([c], ps[0] + ",", rest);
    } else {
      assert Join(qs) == head by {
        assert |qs| == 1 && qs[0] == head;
      }
    }
  }

  /** The segments rejoined with commas give back the original string. */
  lemma {:induction false} JoinSplit(s: string)
    ensures Join(Split(s)) == s
  {
    if s != [] {
      var rest := Split(s[1..]);
      JoinSplit(s[1..]);
      assert s == [s[0]] + s[1..];
      if s[0] == ',' {
        assert Split(s) == [""] + rest;
        JoinCons("", rest);
      } else {
        assert Split(s) == [[s[0]] + rest[0]] + rest[1..];
        JoinExtendHead(s[0], rest);
      }
    }
  }

  lemma {:induction false} SplitCommaFree(a: string)
    requires ',' !in a
    ensures Split(a) == [a]
  {
    if a != [] {
      assert ',' !in a[1..] by { assert forall k :: 0 <= k < |a| - 1 ==> a[1..][k] == a[k + 1]; }
      SplitCommaFree(a[1..]);
      assert a == [a[0]] + a[1..];
    }
  }

  lemma {:induction false} SplitPrefix(a: string, b: string)
    requires ',' !in a
    ensures Split(a + "," + b) == [a] + Split(b)
  {
    if a == [] {
      assert a + "," + b == [','] + b;
      assert ([','] + b)[1..] == b;
    } else {
      assert ',' !in a[1..] by { assert forall k :: 0 <= k < |a| - 1 ==> a[1..][k] == a[k + 1]; }
      assert (a + "," + b)[1..] == a[1..] + "," + b;
      SplitPrefix(a[1..], b);
      assert a == [a[0]] + a[1..];
    }
  }

  /** Conversely, comma-free segments joined with commas split back into the same segments. */
  lemma {:induction false} SplitJoin(parts: seq<string>)
    requires |parts| >= 1
    requires forall i :: 0 <= i < |parts| ==> ',' !in parts[i]
    ensures Split(Join(parts)) == parts
  {
    if |parts| == 1 {
      SplitCommaFree(parts[0]);
    } else {
      SplitJoin(parts[1..]);
      SplitPrefix(parts[0], Join(parts[1..]));
      assert parts == [parts[0]] + parts[1..];
    }
  }

  /**
   * `parseCsv`: no list for an absent or empty value; otherwise one entry
   * per comma-separated segment, trimmed.
   */
  function ParseCsv(csv: Option<string>): (r: seq<string>)
    ensures csv.None? || csv.value == "" ==> r == []
    ensures csv.Some? && csv.value != "" ==> |r| == multiset(csv.value)[','] + 1
    ensures forall i :: 0 <= i < |r| ==> Trimmed(r[i])
  {
    if csv.None? || csv.value == "" then []
    else
      var parts := Split(csv.value);
      SplitLength(csv.value);
      seq(|parts|, i requires 0 <= i < |parts| => Trim(parts[i]))
  }

  /**
   * Entry `i` of `parseCsv(s)` is segment `i` of `s` trimmed, where the
   * segments are the comma-free pieces that rejoin with commas into `s`.
   */
  lemma ParseCsvSegments(s: string, i: nat)
    requires s != "" && i < |ParseCsv(Some(s))|
    ensures i < |Split(s)| && ParseCsv(Some(s))[i] == Trim(Split(s)[i])
    ensures Join(Split(s)) == s && ',' !in Split(s)[i]
  {
    JoinSplit(s);
  }

  // ---------------------------------------------------------------------------
  // The CORS flag

  /** Lower-casing of one character (ASCII letters only; see README). */
  function LowerChar(c: char): char {
    if 'A' <= c <= 'Z' then (c as int + 32) as char else c
  }

  /** `s.toLowerCase()`: character by character. */
  function ToLower(s: string): (r: string)
    ensures |r| == |s|
    ensures forall i :: 0 <= i < |s| ==> r[i] == LowerChar(s[i])
  {
    if s == [] then [] else [LowerChar(s[0])] + ToLower(s[1..])
  }

  /** `s` spells "true" in any mix of upper and lower case. */
  predicate IsTrueIgnoringCase(s: string) {
    && |s| == 4
    && (s[0] == 't' || s[0] == 'T')
    && (s[1] == 'r' || s[1] == 'R')
    && (s[2] == 'u' || s[2] == 'U')
    && (s[3] == 'e' || s[3] == 'E')
  }

  /** `(CORS_ALL && CORS_ALL.toLowerCase() === 'true') ? true : false`: the flag is on exactly
      for a value that spells "true" ignoring case; unset and anything else is off. */
  function CorsAll(raw: Option<string>): (r: bool)
    ensures r <==> raw.Some? && IsTrueIgnoringCase(raw.value)
  {
    if raw.Some? then LowerIsTrue(raw.value); raw.value != "" && ToLower(raw.value) == "true"
    else false
  }

  /** Lower-casing yields "true" exactly for the spellings of "true" ignoring case. */
  lemma LowerIsTrue(s: string)
    ensures ToLower(s) == "true" <==> IsTrueIgnoringCase(s)
  {
    if IsTrueIgnoringCase(s) {
      assert ToLower(s) == "true";
    } else if |s| == 4 {
      var low := ToLower(s);
      assert low[0] != 't' || low[1] != 'r' || low[2] != 'u' || low[3] != 'e';
    }
  }

  // ---------------------------------------------------------------------------
  // The environment

  /** `process.env[name]`: undefined when unset. */
  function Lookup(env: map<string, string>, name: string): Option<string> {
    if name in env then Some(env[name]) else None
  }

  /** `process.env[name] || undefined`: unset and empty both read as undefined. */
  function Truthy(env: map<string, string>, name: string): (r: Option<string>)
    ensures r == None <==> name !in env || env[name] == ""
    ensures r != None ==> name in env && r == Some(env[name])
  {
    if name in env && env[name] != "" then Some(env[name]) else None
  }

  /**
   * `envVars`, built from the environment `env`; `parseInt` stands for the
   * JavaScript library routine applied to the expiry text.
   */
  function LoadEnvVars(env: map<string, string>, parseInt: string -> int): (r: EnvVars)
    ensures r.ignoreUrlPrefix == None <==> "IGNORE_URL_PREFIX" !in env || env["IGNORE_URL_PREFIX"] == ""
    ensures r.ignoreUrlPrefix != None ==> r.ignoreUrlPrefix == Some(env["IGNORE_URL_PREFIX"])
    ensures "CACHE_EXPIRY_SECONDS" !in env || env["CACHE_EXPIRY_SECONDS"] == ""
      ==> r.cacheExpirySeconds == parseInt(DEFAULT_CACHE_EXPIRY_SECONDS)
    ensures "CACHE_EXPIRY_SECONDS" in env && env["CACHE_EXPIRY_SECONDS"] != ""
      ==> r.cacheExpirySeconds == parseInt(env["CACHE_EXPIRY_SECONDS"])
    ensures r.extraTLDs == ParseCsv(Lookup(env, "EXTRA_TLDS"))
    ensures r.extraTLDs == [] <==> "EXTRA_TLDS" !in env || env["EXTRA_TLDS"] == ""
    ensures r.corsAll <==> "CORS_ALL" in env && IsTrueIgnoringCase(env["CORS_ALL"])
  {
    EnvVars(
      ignoreUrlPrefix := Truthy(env, "IGNORE_URL_PREFIX"),
      cacheExpirySeconds := parseInt(Truthy(env, "CACHE_EXPIRY_SECONDS").GetOr(DEFAULT_CACHE_EXPIRY_SECONDS)),
      extraTLDs := ParseCsv(Lookup(env, "EXTRA_TLDS")),
      corsAll := CorsAll(Lookup(env, "CORS_ALL")))
  }
}
