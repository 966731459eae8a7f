/**
 * The parts of `urllib.parse` the LinkedIn adapter calls: the query of
 * `urlparse(href)`, `parse_qs` with its default `keep_blank_values=False`,
 * and `urljoin` against an origin URL.
 */
module Urls {
  import opened Wrappers
  import opened Strings

  // ------------------------------------------------------------------ query

  /**
   * The query component that `urlparse` finds: the fragment goes first
   * (from the first '#'), then the query is what follows the first '?'.
   */
  function QueryOf(url: string): (q: string)
    ensures '#' !in q
    ensures '?' !in url ==> q == ""
  {
    var b := Before(url, '#');
    assert '#' !in b;
    assert forall k :: 0 <= k <= |b| ==> '#' !in b[k..] by {
      forall k | 0 <= k <= |b| ensures '#' !in b[k..] {
        assert forall i :: 0 <= i < |b| - k ==> b[k..][i] == b[k + i];
      }
    }
    After(b, '?')
  }

  /** `parse_qs` turns '+' into ' ' in names and values. */
  function PlusToSpace(s: string): string {
    ReplaceChar(s, '+', " ")
  }

  /**
   * One '&'-separated field, as `parse_qs` reads it: a field without '='
   * or with an empty value is dropped; otherwise it splits at the first '='.
   */
  function FieldPairs(field: string): (pairs: seq<(string, string)>)
    ensures |pairs| <= 1
    ensures forall i :: 0 <= i < |pairs| ==> pairs[i].1 != ""
  {
    if '=' !in field || After(field, '=') == "" then []
    else [(PlusToSpace(Before(field, '=')), PlusToSpace(After(field, '=')))]
  }

  function PairsOf(fields: seq<string>): (pairs: seq<(string, string)>)
    ensures forall i :: 0 <= i < |pairs| ==> pairs[i].1 != ""
  {
    if fields == [] then [] else FieldPairs(fields[0]) + PairsOf(fields[1..])
  }

  /**
   * The `(name, value)` pairs of a query string, in order, as `parse_qs`
   * collects them: no pair has a blank value, and a query without '='
   * has no pairs.
   */
  function ParseQuery(query: string): (pairs: seq<(string, string)>)
    ensures forall i :: 0 <= i < |pairs| ==> pairs[i].1 != ""
    ensures '=' !in query ==> pairs == []
  {
    var fields := SplitOn(query, '&');
    NoEqualsNoPairs(query, fields);
    PairsOf(fields)
  }

  /** Fields cut from a query without '=' yield no pairs. */
  lemma {:induction false} NoEqualsNoPairs(query: string, fields: seq<string>)
    requires fields == SplitOn(query, '&')
    ensures '=' !in query ==> PairsOf(fields) == []
    decreases |query|
  {
    if '=' !in query && '&' in query {
      var k := IndexOf(query, '&');
      assert '=' !in query[..k];
      assert '=' !in query[k + 1..];
      NoEqualsNoPairs(query[k + 1..], SplitOn(query[k + 1..], '&'));
      assert fields[1..] == SplitOn(query[k + 1..], '&');
    }
  }

  /** The first value given for `key` among the parsed pairs, `None` when none is. */
  function FirstValue(pairs: seq<(string, string)>, key: string): (v: Option<string>)
    ensures v.Some? ==> (key, v.value) in pairs
    ensures v.None? <==> forall i :: 0 <= i < |pairs| ==> pairs[i].0 != key
    ensures forall i :: 0 <= i < |pairs| && pairs[i].0 == key && (forall j :: 0 <= j < i ==> pairs[j].0 != key)
              ==> v == Some(pairs[i].1)
  {
    if pairs == [] then None
    else if pairs[0].0 == key then Some(pairs[0].1)
    else FirstValue(pairs[1..], key)
  }

  /** The first value of `key` in the query of `url`; never a blank value. */
  function QueryValue(url: string, key: string): (v: Option<string>)
    ensures v.Some? ==> v.value != ""
  {
    FirstValue(ParseQuery(QueryOf(url)), key)
  }

  /** A URL without '?' has no query, so no key has a value. */
  lemma NoQueryNoValue(url: string, key: string)
    requires '?' !in url
    ensures QueryValue(url, key) == None
  {
    var b := Before(url, '#');
    assert forall i :: 0 <= i < |b| ==> b[i] == url[i];
    assert '?' !in b;
    assert SplitOn("", '&') == [""];
  }

  // --------------------------------------------- encoding, the parser's inverse

  function Field(kv: (string, string)): string {
    kv.0 + "=" + kv.1
  }

  function Fields(pairs: seq<(string, string)>): (fields: seq<string>)
    ensures |fields| == |pairs|
    ensures forall i :: 0 <= i < |pairs| ==> fields[i] == Field(pairs[i])
  {
    if pairs == [] then [] else [Field(pairs[0])] + Fields(pairs[1..])
  }

  /** The query string `k1=v1&k2=v2&...`. */
  function EncodeQuery(pairs: seq<(string, string)>): string {
    JoinWith("&", Fields(pairs))
  }

  /** A pair that `parse_qs` reads back unchanged. */
  predicate PlainPair(kv: (string, string)) {
    && kv.1 != ""
    && '&' !in kv.0 && '&' !in kv.1
    && '=' !in kv.0
    && '+' !in kv.0 && '+' !in kv.1
  }

  lemma FieldRoundTrip(kv: (string, string))
    requires PlainPair(kv)
    ensures FieldPairs(Field(kv)) == [kv]
  {
    var f := Field(kv);
    assert f == kv.0 + "=" + kv.1;
    assert f[..|kv.0|] == kv.0;
    IndexOfIs(f, '=', |kv.0|);
    assert f[|kv.0| + 1..] == kv.1;
    ReplaceAbsent(kv.0, '+', " ");
    ReplaceAbsent(kv.1, '+', " ");
  }

  lemma {:induction false} PairsOfFields(pairs: seq<(string, string)>)
    requires forall i :: 0 <= i < |pairs| ==> PlainPair(pairs[i])
    ensures PairsOf(Fields(pairs)) == pairs
  {
    if pairs != [] {
      FieldRoundTrip(pairs[0]);
      PairsOfFields(pairs[1..]);
      var fs := Fields(pairs);
      assert fs[1..] == Fields(pairs[1..]);
      assert pairs == [pairs[0]] + pairs[1..];
    }
  }

  /** Parsing an encoded query of plain pairs gives back the pairs, in order. */
  lemma ParseEncodeQuery(pairs: seq<(string, string)>)
    requires forall i :: 0 <= i < |pairs| ==> PlainPair(pairs[i])
    ensures ParseQuery(EncodeQuery(pairs)) == pairs
  {
    if pairs == [] {
      assert SplitOn("", '&') == [""];
      assert FieldPairs("") == [];
    } else {
      var fs := Fields(pairs);
      forall i | 0 <= i < |fs| ensures '&' !in fs[i] {
        assert fs[i] == pairs[i].0 + "=" + pairs[i].1;
      }
      SplitJoin(fs, '&');
      PairsOfFields(pairs);
    }
  }

  /** The query of `base?query`, with no '?' or '#' in `base` and no '#' in `query`. */
  lemma QueryOfJoined(base: string, query: string)
    requires '?' !in base && '#' !in base && '#' !in query
    ensures QueryOf(base + "?" + query) == query
  {
    var u := base + "?" + query;
    assert '#' !in u;
    assert u[..|base|] == base;
    IndexOfIs(u, '?', |base|);
    assert u[|base| + 1..] == query;
  }

  // ---------------------------------------------------------------- schemes

  predicate IsAsciiLetter(c: char) {
    ('a' <= c <= 'z') || ('A' <= c <= 'Z')
  }

  predicate SchemeChar(c: char) {
    IsAsciiLetter(c) || IsDigit(c) || c == '+' || c == '-' || c == '.'
  }

  /** `url` starts with a scheme and ':' (a letter, then letters, digits, '+', '-' or '.'). */
  predicate HasScheme(url: string) {
    && ':' in url
    && var i := IndexOf(url, ':');
    && i > 0 && IsAsciiLetter(url[0])
    && forall j :: 0 <= j < i ==> SchemeChar(url[j])
  }

  // ------------------------------------------------- urlsplit's clean-up

  /** A C0 control character or the space: `urlsplit` strips these from the front. */
  predicate C0OrSpace(c: char) {
    c <= ' '
  }

  /** Tab, carriage return and line feed: `urlsplit` deletes these everywhere. */
  predicate Unsafe(c: char) {
    c == '\t' || c == '\r' || c == '\n'
  }

  /** `s` without its leading C0 controls and spaces. */
  function StripLeading(s: string): (r: string)
    ensures |r| <= |s| && r == s[|s| - |r|..]
    ensures forall i :: 0 <= i < |s| - |r| ==> C0OrSpace(s[i])
    ensures r == [] || !C0OrSpace(r[0])
  {
    if s == [] || !C0OrSpace(s[0]) then s else StripLeading(s[1..])
  }

  /** `s` with every tab, carriage return and line feed deleted, the rest in order. */
  function RemoveUnsafe(s: string): (r: string)
    ensures |r| <= |s|
    ensures forall i :: 0 <= i < |r| ==> !Unsafe(r[i])
  {
    if s == [] then []
    else (if Unsafe(s[0]) then [] else [s[0]]) + RemoveUnsafe(s[1..])
  }

  /** Deleting the unsafe characters distributes over concatenation. */
  lemma {:induction false} RemoveUnsafeAppend(a: string, b: string)
    ensures RemoveUnsafe(a + b) == RemoveUnsafe(a) + RemoveUnsafe(b)
  {
    if a == [] {
      assert a + b == b;
    } else {
      assert (a + b)[0] == a[0];
      assert (a + b)[1..] == a[1..] + b;
      RemoveUnsafeAppend(a[1..], b);
    }
  }

  /** A text without unsafe characters is kept as it is. */
  lemma {:induction false} RemoveUnsafeNone(s: string)
    requires forall i :: 0 <= i < |s| ==> !Unsafe(s[i])
    ensures RemoveUnsafe(s) == s
  {
    if s != [] {
      assert forall i :: 0 <= i < |s| - 1 ==> s[1..][i] == s[i + 1];
      RemoveUnsafeNone(s[1..]);
    }
  }

  /** Deleting the unsafe characters leaves a prefix without any as it is. */
  lemma RemoveUnsafePrefix(p: string, s: string)
    requires forall i :: 0 <= i < |p| ==> !Unsafe(p[i])
    ensures RemoveUnsafe(p + s) == p + RemoveUnsafe(s)
  {
    RemoveUnsafeAppend(p, s);
    RemoveUnsafeNone(p);
  }

  /**
   * The reference as `urlsplit` reads it: leading C0 controls and spaces
   * stripped, then every tab, carriage return and line feed deleted. What
   * is left has neither, and does not start with a control or a space.
   */
  function CleanRef(s: string): (r: string)
    ensures forall i :: 0 <= i < |r| ==> !Unsafe(r[i])
    ensures r == [] || !C0OrSpace(r[0])
  {
    var t := StripLeading(s);
    if t == [] then []
    else
      assert !Unsafe(t[0]);
      assert RemoveUnsafe(t) == [t[0]] + RemoveUnsafe(t[1..]);
      RemoveUnsafe(t)
  }

  /** A reference that is already clean is kept as it is. */
  lemma CleanRefKeeps(s: string)
    requires forall i :: 0 <= i < |s| ==> !Unsafe(s[i])
    requires s == [] || !C0OrSpace(s[0])
    ensures CleanRef(s) == s
  {
    RemoveUnsafeNone(s);
  }

  /** Cleaning a reference brings in no character it did not have. */
  lemma CleanRefKeepsOut(s: string, c: char)
    requires c !in s
    ensures c !in CleanRef(s)
  {
    var t := StripLeading(s);
    assert forall i :: 0 <= i < |t| ==> t[i] == s[|s| - |t| + i];
    RemoveUnsafeKeepsOut(t, c);
  }

  lemma {:induction false} RemoveUnsafeKeepsOut(s: string, c: char)
    requires c !in s
    ensures c !in RemoveUnsafe(s)
  {
    if s != [] {
      assert c !in s[1..];
      RemoveUnsafeKeepsOut(s[1..], c);
    }
  }

  /** Leading C0 controls and spaces make no difference to the clean reference. */
  lemma {:induction false} CleanRefSkipsLeading(lead: string, s: string)
    requires forall i :: 0 <= i < |lead| ==> C0OrSpace(lead[i])
    ensures CleanRef(lead + s) == CleanRef(s)
  {
    if lead != [] {
      assert (lead + s)[1..] == lead[1..] + s;
      CleanRefSkipsLeading(lead[1..], s);
    } else {
      assert lead + s == s;
    }
  }

  // ---------------------------------------------------------------- urljoin

  /**
   * `urljoin(origin, ref)` where `origin` is `scheme://host` with an empty
   * path. An empty ref gives the origin. Otherwise the ref is cleaned as
   * `urlsplit` cleans it, and then:
   * - a clean ref that is empty gives the origin;
   * - a ref with another scheme is returned as it was given, uncleaned;
   * - a ref with the origin's scheme is the clean ref with its scheme
   *   lower-cased;
   * - a network-path ref ("//host...") takes the origin's scheme;
   * - a "//" ref with an empty host is appended, without the slashes, to
   *   the origin;
   * - a ref starting with '/', '?' or '#' is appended to the origin;
   * - any other ref is appended after a '/'.
   * A ref with neither a scheme nor a host therefore stays on the origin.
   */
  function JoinToOrigin(origin: string, ref: string): (link: string)
    ensures origin != "" ==> link != ""
    ensures var r := CleanRef(ref);
      !HasScheme(r) && !HostRef(r) ==> StartsWith(link, origin)
  {
    if ref == "" then origin
    else
      var r := CleanRef(ref);
      if HasScheme(r) then
        var scheme := Lower(Before(r, ':'));
        if scheme == Before(origin, ':') then scheme + ":" + After(r, ':') else ref
      else JoinRelative(origin, r)
  }

  /**
   * `urljoin(origin, r)` for a clean ref `r` without a scheme. A ref that
   * starts with "//" names a host up to the next '/', '?' or '#'; when that
   * host is empty, the origin's host stands in and the rest joins as a
   * relative ref would.
   */
  function JoinRelative(origin: string, r: string): (link: string)
    ensures origin != "" ==> link != ""
    ensures !HostRef(r) ==> StartsWith(link, origin)
  {
    if r == "" then origin
    else if StartsWith(r, "//") then
      if HostRef(r) then Before(origin, ':') + ":" + r else origin + r[2..]
    else if r[0] == '/' || r[0] == '?' || r[0] == '#' then origin + r
    else origin + "/" + r
  }

  /** `r` starts with "//" and a non-empty host. */
  predicate HostRef(r: string) {
    StartsWith(r, "//") && |r| > 2 && r[2] != '/' && r[2] != '?' && r[2] != '#'
  }

  /**
   * A ref of "//" with an empty host keeps the origin's host: what follows
   * the slashes is appended to the origin.
   */
  lemma JoinEmptyHost(origin: string, rest: string)
    requires rest == [] || rest[0] == '/' || rest[0] == '?' || rest[0] == '#'
    requires forall i :: 0 <= i < |rest| ==> !Unsafe(rest[i])
    ensures JoinToOrigin(origin, "//" + rest) == origin + rest
  {
    var ref := "//" + rest;
    assert forall i :: 0 <= i < |ref| ==> !Unsafe(ref[i]) by {
      forall i | 0 <= i < |ref| ensures !Unsafe(ref[i]) {
        if i >= 2 { assert ref[i] == rest[i - 2]; }
      }
    }
    CleanRefKeeps(ref);
    assert !HasScheme(ref) by {
      if ':' in ref {
        assert !IsAsciiLetter(ref[0]);
      }
    }
    assert StartsWith(ref, "//") && !HostRef(ref) && ref[2..] == rest;
    assert JoinRelative(origin, ref) == origin + rest;
    assert JoinToOrigin(origin, ref) == JoinRelative(origin, ref);
  }

  /**
   * A root-relative ref is appended to the origin once its tabs and line
   * breaks are deleted.
   */
  lemma JoinRootRelative(origin: string, ref: string)
    requires ref != "" && ref[0] == '/'
    requires !StartsWith(RemoveUnsafe(ref), "//")
    ensures JoinToOrigin(origin, ref) == origin + RemoveUnsafe(ref)
  {
    assert StripLeading(ref) == ref;
    assert RemoveUnsafe(ref) == [ref[0]] + RemoveUnsafe(ref[1..]);
    var r := CleanRef(ref);
    assert r[0] == '/';
    assert !HasScheme(r) by {
      if ':' in r {
        assert !IsAsciiLetter(r[0]);
      }
    }
  }

  /**
   * Leading C0 controls and spaces do not change where a ref without a
   * scheme leads.
   */
  lemma JoinSkipsLeading(origin: string, lead: string, ref: string)
    requires forall i :: 0 <= i < |lead| ==> C0OrSpace(lead[i])
    requires ':' !in ref
    ensures JoinToOrigin(origin, lead + ref) == JoinToOrigin(origin, ref)
  {
    CleanRefSkipsLeading(lead, ref);
    var r := CleanRef(ref);
    CleanRefKeepsOut(ref, ':');
    assert !HasScheme(r);
    if ref == "" {
      assert lead + ref == lead;
      assert r == "" && JoinRelative(origin, r) == origin;
    } else {
      assert lead + ref != "";
    }
    assert JoinToOrigin(origin, lead + ref) == JoinRelative(origin, r);
  }
}
