/**
 * The canonical request that the query string hash of Atlassian Connect is taken of (src/jira/util/jwt.ts): which
 * requests have the same canonical form.
 */
module CanonicalRequest {
  import opened PercentEncoding
  import opened StringSort
  import opened Text

  /** One property of a query object: the values of a parameter, in the order they were given. */
  datatype Entry = Entry(key: string, values: seq<string>)

  type Query = seq<Entry>

  datatype Request = Request(verb: string, pathname: string, query: Query, body: Query)

  const SEPARATOR := "&"

  // ---- Query objects ------------------------------------------------------------------------------------------------

  function Keys(query: Query): (keys: seq<string>)
    ensures |keys| == |query| && forall x | 0 <= x < |query| :: keys[x] == query[x].key
  {
    seq(|query|, x requires 0 <= x < |query| => query[x].key)
  }

  predicate Distinct(keys: seq<string>) {
    forall x, y | 0 <= x < y < |keys| :: keys[x] != keys[y]
  }

  function ValuesOf(query: Query, key: string): seq<string>
    requires key in Keys(query)
  {
    if query[0].key == key then query[0].values
    else
      assert Keys(query)[0] == query[0].key;
      assert Keys(query)[1..] == Keys(query[1..]);
      ValuesOf(query[1..], key)
  }

  /** `delete query.jwt`. */
  function WithoutJwt(query: Query): Query {
    if query == [] then []
    else (if query[0].key == "jwt" then [] else [query[0]]) + WithoutJwt(query[1..])
  }

  /** `query[key] = values`. */
  function Put(query: Query, entry: Entry): Query {
    if query == [] then [entry]
    else if query[0].key == entry.key then [entry] + query[1..]
    else [query[0]] + Put(query[1..], entry)
  }

  /** `Object.fromEntries`: of several entries with one key the last counts. */
  function FromEntries(entries: seq<Entry>): Query {
    if entries == [] then [] else Put(FromEntries(entries[..|entries| - 1]), entries[|entries| - 1])
  }

  /** The parameters that are looked at: those of the query, or those of the body where the query has none. */
  function Sent(request: Request, checkBodyForParams: bool): Query {
    if checkBodyForParams && request.query == []
        && Upper(request.verb) in {"POST", "PUT"} then FromEntries(request.body)
    else request.query
  }

  // ---- The canonical form -------------------------------------------------------------------------------------------

  function EscapeSeparator(c: char): string {
    if c == '&' then EncodeRfc3986(SEPARATOR) else [c]
  }

  function Rooted(path: string): string {
    if path != "" && path[0] == '/' then path else "/" + path
  }

  function Trimmed(path: string): string {
    if |path| > 1 && path[|path| - 1] == '/' then path[..|path| - 1] else path
  }

  /** A missing pathname is the empty one. */
  function CanonicalUri(pathname: string): string {
    if pathname == "" then "/" else Trimmed(Rooted(FlatMap(EscapeSeparator, pathname)))
  }

  method CanonicalizeUri(pathname: string) returns (path: string)
    ensures path == CanonicalUri(pathname)
  {
    path := pathname;
    if |path| == 0 {
      return "/";
    }
    path := FlatMap(EscapeSeparator, path);
    EscapedPathNonEmpty(pathname);
    if path[0] != '/' {
      path := "/" + path;
    }
    if |path| > 1 && path[|path| - 1] == '/' {
      path := path[..|path| - 1];
    }
  }

  function EncodeAll(values: seq<string>): (r: seq<string>)
    ensures |r| == |values| && forall x | 0 <= x < |r| :: r[x] == EncodeRfc3986(values[x])
  {
    seq(|values|, x requires 0 <= x < |values| => EncodeRfc3986(values[x]))
  }

  function CanonicalValues(values: seq<string>): string {
    Join(EncodeAll(Sort(values)), ",")
  }

  function CanonicalEntry(query: Query, key: string): string
    requires key in Keys(query)
  {
    EncodeRfc3986(key) + "=" + CanonicalValues(ValuesOf(query, key))
  }

  function CanonicalEntries(query: Query, keys: seq<string>): seq<string>
    requires forall key | key in keys :: key in Keys(query)
  {
    if keys == [] then []
    else [CanonicalEntry(query, keys[0])] + CanonicalEntries(query, keys[1..])
  }

  function SortedKeys(query: Query): (keys: seq<string>)
    ensures forall key :: key in keys <==> key in Keys(query)
  {
    SortSorts(Keys(query));
    assert forall key :: key in Sort(Keys(query)) <==> key in multiset(Sort(Keys(query)));
    Sort(Keys(query))
  }

  function CanonicalQuery(query: Query): string {
    Join(CanonicalEntries(query, SortedKeys(query)), SEPARATOR)
  }

  method CanonicalizeQueryString(request: Request, checkBodyForParams: bool) returns (r: string)
    ensures r == CanonicalQuery(WithoutJwt(Sent(request, checkBodyForParams)))
  {
    hide Join, FromEntries, CanonicalEntry, Upper;
    var query := request.query;
    var verb := Upper(request.verb);
    if checkBodyForParams && query == [] && (verb == "POST" || verb == "PUT") {
      query := FromEntries(request.body);
    }
    if query == [] {
      NoParameters();
      return "";
    }
    query := WithoutJwt(query);
    var keys := SortedKeys(query);
    var acc: seq<string> := [];
    for i := 0 to |keys|
      invariant acc == CanonicalEntries(query, keys[..i])
    {
      OneMoreEntry(query, keys[..i], keys[i]);
      assert keys[..i + 1] == keys[..i] + [keys[i]];
      acc := acc + [CanonicalEntry(query, keys[i])];
    }
    assert keys[..|keys|] == keys;
    r := Join(acc, SEPARATOR);
  }

  function CreateCanonicalRequest(request: Request, checkBodyForParams: bool): string {
    Upper(request.verb)
    + SEPARATOR
    + CanonicalUri(request.pathname)
    + SEPARATOR
    + CanonicalQuery(WithoutJwt(Sent(request, checkBodyForParams)))
  }

  lemma NoParameters()
    ensures CanonicalQuery([]) == ""
  {
    assert Keys([]) == [];
  }

  lemma {:induction false} OneMoreEntry(query: Query, keys: seq<string>, key: string)
    requires key in Keys(query) && forall k | k in keys :: k in Keys(query)
    ensures CanonicalEntries(query, keys + [key]) == CanonicalEntries(query, keys) + [CanonicalEntry(query, key)]
  {
    hide CanonicalEntry;
    if keys == [] {
      assert keys + [key] == [key];
      assert [key][1..] == [];
    } else {
      assert (keys + [key])[1..] == keys[1..] + [key];
      OneMoreEntry(query, keys[1..], key);
    }
  }

  // ---- Paths --------------------------------------------------------------------------------------------------------

  lemma EscapedPathNonEmpty(path: string)
    requires path != ""
    ensures var escaped := FlatMap(EscapeSeparator, path); escaped != "" && (escaped[0] == '/' <==> path[0] == '/')
  {
    EncodedSeparator();
  }

  lemma EncodedSeparator()
    ensures EncodeRfc3986(SEPARATOR) == "%26"
  {
    EncodesReserved(SEPARATOR);
    assert SEPARATOR[1..] == "";
    assert Utf8('&') == [0x26];
    assert PercentByte(0x26) == "%26";
  }

  lemma {:induction false} EscapedPath(path: string)
    ensures '&' !in FlatMap(EscapeSeparator, path)
    ensures path != "" ==> FlatMap(EscapeSeparator, path) != "" &&
                           (LastIsSlash(FlatMap(EscapeSeparator, path)) <==> LastIsSlash(path))
  {
    EncodedSeparator();
    if path != "" {
      EscapedPath(path[1..]);
    }
  }

  predicate LastIsSlash(path: string)
    requires path != ""
  {
    path[|path| - 1] == '/'
  }

  // The canonical path starts with a slash and holds no separator.
  lemma CanonicalUriShape(pathname: string)
    ensures var path := CanonicalUri(pathname); path != "" && path[0] == '/' && '&' !in path
  {
    EscapedPath(pathname);
  }

  /** A path with a second trailing slash, other than the path of two slashes. */
  predicate EndsInTwo(path: string) {
    |path| > 2 && path[|path| - 1] == '/' && path[|path| - 2] == '/'
  }

  lemma EscapedLast(path: string, last: char)
    ensures FlatMap(EscapeSeparator, path + [last]) == FlatMap(EscapeSeparator, path) + EscapeSeparator(last)
  {
    FlatMapConcat(EscapeSeparator, path, [last]);
    OneChar(EscapeSeparator, last);
  }

  lemma EscapedEnd(path: string)
    requires path != ""
    ensures EndsInTwo(FlatMap(EscapeSeparator, path)) <==> EndsInTwo(path)
  {
    hide FlatMap, EncodeRfc3986;
    var n := |path|;
    EscapedPath(path);
    if path[n - 1] == '/' {
      assert path == path[..n - 1] + ['/'];
      EscapedLast(path[..n - 1], '/');
      EscapedPath(path[..n - 1]);
      if n >= 2 && path[n - 2] == '/' {
        assert path[..n - 1] == path[..n - 2] + ['/'];
        EscapedLast(path[..n - 2], '/');
        EscapedPath(path[..n - 2]);
        EscapedNothing();
      } else if n == 1 {
        EscapedNothing();
      }
    }
  }

  lemma EscapedNothing()
    ensures FlatMap(EscapeSeparator, "") == ""
  {
  }

  // Taking the canonical path of a canonical path changes it exactly if more than one trailing slash was there to
  // strip.
  lemma CanonicalUriTwice(pathname: string)
    ensures CanonicalUri(CanonicalUri(pathname)) == CanonicalUri(pathname) <==> !EndsInTwo(pathname)
  {
    hide EncodeRfc3986, FlatMap;
    var path := CanonicalUri(pathname);
    CanonicalUriShape(pathname);
    FlatMapSame(EscapeSeparator, path);
    assert CanonicalUri(path) == Trimmed(path);
    if pathname != "" {
      EscapedEnd(pathname);
      EscapedPath(pathname);
      var escaped := FlatMap(EscapeSeparator, pathname);
      assert EndsInTwo(Rooted(escaped)) <==> EndsInTwo(escaped);
      TrimmedTwice(Rooted(escaped));
    }
  }

  lemma TrimmedTwice(path: string)
    ensures Trimmed(Trimmed(path)) == Trimmed(path) <==> !EndsInTwo(path)
  {
    if EndsInTwo(path) {
      assert |Trimmed(Trimmed(path))| < |Trimmed(path)|;
    }
  }

  // ---- Values -------------------------------------------------------------------------------------------------------

  /** A parameter without values looks like one with an empty value. */
  function Listed(values: seq<string>): seq<string> {
    if values == [] then [""] else values
  }

  lemma CanonicalValuesListed(values: seq<string>)
    ensures CanonicalValues(values) == CanonicalValues(Listed(values))
  {
    if values == [] {
      assert Sort([""]) == [""];
      assert EncodeAll([""]) == [""];
    }
  }

  lemma EncodeAllInjective(a: seq<string>, b: seq<string>)
    requires EncodeAll(a) == EncodeAll(b)
    ensures a == b
  {
    hide EncodeRfc3986;
    forall x | 0 <= x < |a|
      ensures a[x] == b[x]
    {
      assert EncodeAll(a)[x] == EncodeAll(b)[x];
      EncodingIsInjective(a[x], b[x]);
    }
  }

  lemma EncodeAllClean(values: seq<string>, c: char)
    requires !IsEncodedChar(c)
    ensures forall piece | piece in EncodeAll(values) :: c !in piece
  {
    hide EncodeRfc3986, IsEncodedChar;
    forall x | 0 <= x < |values|
      ensures c !in EncodeAll(values)[x]
    {
      EncodedChars(values[x]);
    }
  }

  lemma ValuesFaithful(a: seq<string>, b: seq<string>)
    ensures CanonicalValues(a) == CanonicalValues(b) <==> multiset(Listed(a)) == multiset(Listed(b))
  {
    hide Join, Split, IsEncodedChar, Sort;
    CanonicalValuesListed(a);
    CanonicalValuesListed(b);
    var s, t := Sort(Listed(a)), Sort(Listed(b));
    SortForgetsOrder(Listed(a), Listed(b));
    if CanonicalValues(a) == CanonicalValues(b) {
      SortSorts(Listed(a));
      SortSorts(Listed(b));
      assert |s| == |multiset(s)| == |Listed(a)| && |t| == |multiset(t)| == |Listed(b)|;
      CommaIsNotEncoded();
      EncodeAllClean(s, ',');
      EncodeAllClean(t, ',');
      SplitJoin(EncodeAll(s), ',');
      SplitJoin(EncodeAll(t), ',');
      EncodeAllInjective(s, t);
    }
  }

  lemma CommaIsNotEncoded()
    ensures !IsEncodedChar(',') && !IsEncodedChar('&') && !IsEncodedChar('=')
  {
  }

  // ---- Entries ------------------------------------------------------------------------------------------------------

  lemma CanonicalValuesChars(values: seq<string>, c: char)
    requires c in CanonicalValues(values)
    ensures IsEncodedChar(c) || c == ','
  {
    hide Join, Sort, EncodeRfc3986, IsEncodedChar;
    var pieces := EncodeAll(Sort(values));
    JoinedChars(pieces, ',', c);
    if c != ',' {
      var x :| 0 <= x < |pieces| && c in pieces[x];
      EncodedChars(Sort(values)[x]);
    }
  }

  lemma EntryClean(query: Query, key: string)
    requires key in Keys(query)
    ensures '&' !in CanonicalEntry(query, key)
  {
    hide EncodeRfc3986, CanonicalValues;
    EncodedChars(key);
    if '&' in CanonicalValues(ValuesOf(query, key)) {
      CanonicalValuesChars(ValuesOf(query, key), '&');
    }
  }

  lemma EntryFaithful(q1: Query, k1: string, q2: Query, k2: string)
    requires k1 in Keys(q1) && k2 in Keys(q2)
    ensures CanonicalEntry(q1, k1) == CanonicalEntry(q2, k2) <==>
              k1 == k2 && multiset(Listed(ValuesOf(q1, k1))) == multiset(Listed(ValuesOf(q2, k2)))
  {
    hide EncodeRfc3986, CanonicalValues, Listed, ValuesOf, IsEncodedChar;
    var v1, v2 := ValuesOf(q1, k1), ValuesOf(q2, k2);
    ValuesFaithful(v1, v2);
    if CanonicalEntry(q1, k1) == CanonicalEntry(q2, k2) {
      CommaIsNotEncoded();
      EncodedChars(k1);
      EncodedChars(k2);
      FirstSeparator(EncodeRfc3986(k1), '=', CanonicalValues(v1), EncodeRfc3986(k2), CanonicalValues(v2));
      EncodingIsInjective(k1, k2);
    }
  }

  // ---- Queries ------------------------------------------------------------------------------------------------------

  /** The parameter `key` is in both queries with the same values in some order, or in neither. */
  ghost predicate SameParameter(q1: Query, q2: Query, key: string) {
    && (key in Keys(q1) <==> key in Keys(q2))
    && (key in Keys(q1) && key in Keys(q2) ==>
          multiset(Listed(ValuesOf(q1, key))) == multiset(Listed(ValuesOf(q2, key))))
  }

  ghost predicate SameParameters(q1: Query, q2: Query, keys: seq<string>) {
    forall key | key in keys :: SameParameter(q1, q2, key)
  }

  lemma {:induction false} EntriesFaithful(q1: Query, keys1: seq<string>, q2: Query, keys2: seq<string>)
    requires (forall key | key in keys1 :: key in Keys(q1)) && (forall key | key in keys2 :: key in Keys(q2))
    ensures CanonicalEntries(q1, keys1) == CanonicalEntries(q2, keys2) <==>
              keys1 == keys2 && SameParameters(q1, q2, keys1)
  {
    hide CanonicalEntry, Listed, ValuesOf;
    if keys1 != [] && keys2 != [] {
      EntryFaithful(q1, keys1[0], q2, keys2[0]);
      EntriesFaithful(q1, keys1[1..], q2, keys2[1..]);
      assert keys1 == [keys1[0]] + keys1[1..] && keys2 == [keys2[0]] + keys2[1..];
      SameFront(keys1[0], keys1[1..], keys2[0], keys2[1..]);
      SameFront(CanonicalEntry(q1, keys1[0]), CanonicalEntries(q1, keys1[1..]),
                CanonicalEntry(q2, keys2[0]), CanonicalEntries(q2, keys2[1..]));
      assert SameParameters(q1, q2, keys1) <==>
             SameParameter(q1, q2, keys1[0]) && SameParameters(q1, q2, keys1[1..]) by {
        assert forall key :: key in keys1 <==> key == keys1[0] || key in keys1[1..];
      }
    }
  }

  lemma SameFront(x: string, xs: seq<string>, y: string, ys: seq<string>)
    ensures [x] + xs == [y] + ys <==> x == y && xs == ys
  {
    assert ([x] + xs)[0] == x && ([x] + xs)[1..] == xs;
    assert ([y] + ys)[0] == y && ([y] + ys)[1..] == ys;
  }

  lemma {:induction false} EntriesClean(query: Query, keys: seq<string>)
    requires forall key | key in keys :: key in Keys(query)
    ensures |CanonicalEntries(query, keys)| == |keys|
    ensures forall piece | piece in CanonicalEntries(query, keys) :: '&' !in piece && piece != ""
  {
    if keys != [] {
      EntryClean(query, keys[0]);
      EntriesClean(query, keys[1..]);
    }
  }

  lemma QueryStringsApart(q1: Query, q2: Query)
    ensures CanonicalQuery(q1) == CanonicalQuery(q2) <==>
              CanonicalEntries(q1, SortedKeys(q1)) == CanonicalEntries(q2, SortedKeys(q2))
  {
    hide SortedKeys, CanonicalEntries, Split;
    var e1, e2 := CanonicalEntries(q1, SortedKeys(q1)), CanonicalEntries(q2, SortedKeys(q2));
    EntriesClean(q1, SortedKeys(q1));
    EntriesClean(q2, SortedKeys(q2));
    if CanonicalQuery(q1) == CanonicalQuery(q2) {
      if e1 != [] {
        SplitJoin(e1, '&');
        JoinNonEmpty(e1);
      }
      if e2 != [] {
        SplitJoin(e2, '&');
        JoinNonEmpty(e2);
      }
    }
  }

  lemma JoinNonEmpty(pieces: seq<string>)
    requires pieces != [] && forall piece | piece in pieces :: piece != ""
    ensures Join(pieces, SEPARATOR) != ""
  {
    assert pieces[0] in pieces;
  }

  // With distinct keys, the sorted key lists agree exactly if the key sets do.
  lemma SortedKeysAgree(q1: Query, q2: Query)
    requires Distinct(Keys(q1)) && Distinct(Keys(q2))
    ensures SortedKeys(q1) == SortedKeys(q2) <==> forall key :: key in Keys(q1) <==> key in Keys(q2)
  {
    hide Sort, Distinct, Keys;
    var k1, k2 := Keys(q1), Keys(q2);
    SortForgetsOrder(k1, k2);
    assert SortedKeys(q1) == Sort(k1) && SortedKeys(q2) == Sort(k2);
    DistinctCounts(k1);
    DistinctCounts(k2);
    if forall key :: key in k1 <==> key in k2 {
      assert forall key :: multiset(k1)[key] == multiset(k2)[key];
      assert multiset(k1) == multiset(k2);
    }
    if SortedKeys(q1) == SortedKeys(q2) {
      forall key
        ensures key in k1 <==> key in k2
      {
        assert multiset(k1)[key] == multiset(k2)[key];
      }
    }
  }

  lemma {:induction false} DistinctCounts(keys: seq<string>)
    requires Distinct(keys)
    ensures forall key :: multiset(keys)[key] == if key in keys then 1 else 0
  {
    if keys != [] {
      assert keys == [keys[0]] + keys[1..];
      assert forall y | 0 <= y < |keys[1..]| :: keys[1..][y] == keys[y + 1];
      DistinctCounts(keys[1..]);
    }
  }

  lemma QueryFaithful(q1: Query, q2: Query)
    requires Distinct(Keys(q1)) && Distinct(Keys(q2))
    ensures CanonicalQuery(q1) == CanonicalQuery(q2) <==> forall key :: SameParameter(q1, q2, key)
  {
    hide CanonicalQuery, SortedKeys, CanonicalEntries, Listed, ValuesOf, Keys;
    QueryStringsApart(q1, q2);
    EntriesFaithful(q1, SortedKeys(q1), q2, SortedKeys(q2));
    SortedKeysAgree(q1, q2);
    if CanonicalQuery(q1) == CanonicalQuery(q2) {
      forall key
        ensures SameParameter(q1, q2, key)
      {
        if key in Keys(q1) || key in Keys(q2) {
          assert key in SortedKeys(q1);
        }
      }
    }
    if forall key :: SameParameter(q1, q2, key) {
      forall key
        ensures key in Keys(q1) <==> key in Keys(q2)
      {
        assert SameParameter(q1, q2, key);
      }
    }
  }

  // ---- Requests -----------------------------------------------------------------------------------------------------

  lemma {:induction false} WithoutJwtExact(query: Query, key: string)
    ensures key in Keys(WithoutJwt(query)) <==> key in Keys(query) && key != "jwt"
    ensures key in Keys(query) && key != "jwt" ==> ValuesOf(WithoutJwt(query), key) == ValuesOf(query, key)
  {
    if query != [] {
      WithoutJwtExact(query[1..], key);
      KeysStep(query);
      var rest := WithoutJwt(query[1..]);
      if query[0].key != "jwt" {
        KeysStep([query[0]] + rest);
        assert ([query[0]] + rest)[1..] == rest;
      } else {
        assert WithoutJwt(query) == rest;
      }
    }
  }

  lemma KeysStep(query: Query)
    requires query != []
    ensures Keys(query) == [query[0].key] + Keys(query[1..])
  {
  }

  lemma DistinctStep(key: string, keys: seq<string>)
    ensures Distinct([key] + keys) <==> key !in keys && Distinct(keys)
  {
    var all := [key] + keys;
    assert forall x | 0 <= x < |keys| :: all[x + 1] == keys[x];
    if Distinct(all) {
      forall y | 0 <= y < |keys|
        ensures keys[y] != key
      {
        assert all[0] != all[y + 1];
      }
      forall x, y | 0 <= x < y < |keys|
        ensures keys[x] != keys[y]
      {
        assert all[x + 1] != all[y + 1];
      }
    }
  }

  lemma DistinctCons(entry: Entry, rest: Query)
    ensures Keys([entry] + rest) == [entry.key] + Keys(rest)
    ensures Distinct(Keys([entry] + rest)) <==> entry.key !in Keys(rest) && Distinct(Keys(rest))
  {
    var all := [entry] + rest;
    KeysStep(all);
    assert all[1..] == rest;
    DistinctStep(entry.key, Keys(rest));
  }

  lemma {:induction false} WithoutJwtDistinct(query: Query)
    requires Distinct(Keys(query))
    ensures Distinct(Keys(WithoutJwt(query)))
  {
    hide Distinct, Keys;
    if query != [] {
      assert query == [query[0]] + query[1..];
      DistinctCons(query[0], query[1..]);
      WithoutJwtDistinct(query[1..]);
      WithoutJwtExact(query[1..], query[0].key);
      DistinctCons(query[0], WithoutJwt(query[1..]));
      assert [] + WithoutJwt(query[1..]) == WithoutJwt(query[1..]);
    }
  }

  lemma {:induction false} PutDistinct(query: Query, entry: Entry)
    requires Distinct(Keys(query))
    ensures Distinct(Keys(Put(query, entry)))
    ensures forall key :: key in Keys(Put(query, entry)) <==> key in Keys(query) || key == entry.key
  {
    DistinctCons(entry, []);
    assert [entry] + [] == [entry];
    if query != [] {
      hide Distinct, Keys;
      assert query == [query[0]] + query[1..];
      DistinctCons(query[0], query[1..]);
      if query[0].key == entry.key {
        DistinctCons(entry, query[1..]);
      } else {
        PutDistinct(query[1..], entry);
        DistinctCons(query[0], Put(query[1..], entry));
      }
    }
  }

  lemma {:induction false} FromEntriesDistinct(entries: seq<Entry>)
    ensures Distinct(Keys(FromEntries(entries)))
  {
    if entries != [] {
      FromEntriesDistinct(entries[..|entries| - 1]);
      PutDistinct(FromEntries(entries[..|entries| - 1]), entries[|entries| - 1]);
    }
  }

  lemma {:induction false} PutValues(query: Query, entry: Entry, key: string)
    ensures key in Keys(Put(query, entry)) <==> key in Keys(query) || key == entry.key
    ensures key in Keys(Put(query, entry)) ==>
              ValuesOf(Put(query, entry), key) ==
              if key == entry.key then entry.values else ValuesOf(query, key)
  {
    var put := Put(query, entry);
    KeysStep(put);
    if query != [] {
      KeysStep(query);
      if query[0].key == entry.key {
        assert put[1..] == query[1..];
      } else {
        assert put[1..] == Put(query[1..], entry);
        PutValues(query[1..], entry, key);
      }
    }
  }

  // An object made of entries has the value of the last entry for each key.
  lemma {:induction false} LastEntryCounts(entries: seq<Entry>, x: nat)
    requires x < |entries| && forall y | x < y < |entries| :: entries[y].key != entries[x].key
    ensures entries[x].key in Keys(FromEntries(entries))
    ensures ValuesOf(FromEntries(entries), entries[x].key) == entries[x].values
  {
    var front, last := entries[..|entries| - 1], entries[|entries| - 1];
    PutValues(FromEntries(front), last, entries[x].key);
    if x < |front| {
      LastEntryCounts(front, x);
    }
  }

  // Main result: the canonical forms of two requests are equal exactly if their upper-cased methods and their canonical
  // paths are, and their parameters other than `jwt` have the same keys and the same values, in any order.
  lemma CanonicalFormIsFaithful(r1: Request, check1: bool, r2: Request, check2: bool)
    requires Distinct(Keys(r1.query)) && Distinct(Keys(r2.query))
    requires '&' !in r1.verb && '&' !in r2.verb
    ensures CreateCanonicalRequest(r1, check1) == CreateCanonicalRequest(r2, check2) <==>
              && Upper(r1.verb) == Upper(r2.verb)
              && CanonicalUri(r1.pathname) == CanonicalUri(r2.pathname)
              && forall key | key != "jwt" :: SameParameter(Sent(r1, check1), Sent(r2, check2), key)
  {
    hide CanonicalUri, CanonicalQuery, WithoutJwt, ValuesOf, Keys, Listed, Distinct;
    FromEntriesDistinct(r1.body);
    FromEntriesDistinct(r2.body);
    var s1, s2 := Sent(r1, check1), Sent(r2, check2);
    var q1, q2 := WithoutJwt(s1), WithoutJwt(s2);
    WithoutJwtDistinct(s1);
    WithoutJwtDistinct(s2);
    QueryFaithful(q1, q2);
    forall key
      ensures SameParameter(q1, q2, key) <==> key == "jwt" || SameParameter(s1, s2, key)
    {
      WithoutJwtExact(s1, key);
      WithoutJwtExact(s2, key);
    }
    RequestsApart(r1, check1, r2, check2);
  }

  lemma RequestsApart(r1: Request, check1: bool, r2: Request, check2: bool)
    requires '&' !in r1.verb && '&' !in r2.verb
    ensures CreateCanonicalRequest(r1, check1) == CreateCanonicalRequest(r2, check2) <==>
              && Upper(r1.verb) == Upper(r2.verb)
              && CanonicalUri(r1.pathname) == CanonicalUri(r2.pathname)
              && CanonicalQuery(WithoutJwt(Sent(r1, check1))) == CanonicalQuery(WithoutJwt(Sent(r2, check2)))
  {
    hide CanonicalUri, CanonicalQuery, WithoutJwt, Sent;
    var q1, q2 := CanonicalQuery(WithoutJwt(Sent(r1, check1))), CanonicalQuery(WithoutJwt(Sent(r2, check2)));
    var u1, u2 := CanonicalUri(r1.pathname), CanonicalUri(r2.pathname);
    var c1, c2 := CreateCanonicalRequest(r1, check1), CreateCanonicalRequest(r2, check2);
    assert c1 == Upper(r1.verb) + ['&'] + (u1 + ['&'] + q1);
    assert c2 == Upper(r2.verb) + ['&'] + (u2 + ['&'] + q2);
    if c1 == c2 {
      FirstSeparator(Upper(r1.verb), '&', u1 + ['&'] + q1, Upper(r2.verb), u2 + ['&'] + q2);
      CanonicalUriShape(r1.pathname);
      CanonicalUriShape(r2.pathname);
      FirstSeparator(u1, '&', q1, u2, q2);
    }
  }
}
