/**
 * The scanner for Jira issue keys (src/util/jira-utils.ts): the two regular expressions as explicit scanners, the plain
 * one compared with a declarative reading of "an issue key occurs here".
 */
module IssueKeys {
  import Decimal
  import opened Text

  // ---- Characters ---------------------------------------------------------------------------------------------------

  /** `[A-Z]` under the flags `i` and `u`: the two non-ASCII characters fold to `s` and `k`. */
  predicate IsLetter(c: char) {
    'A' <= c <= 'Z' || 'a' <= c <= 'z' || c == '\U{017F}' || c == '\U{212A}'
  }

  /** `[A-Z\d]`. */
  predicate IsAlnum(c: char) {
    IsLetter(c) || Decimal.IsDigit(c)
  }

  predicate AllAlnum(s: string) {
    forall i :: 0 <= i < |s| ==> IsAlnum(s[i])
  }

  // ---- What an issue key is -----------------------------------------------------------------------------------------

  /** The part before the dash: a letter and 1 to 255 letters or digits. */
  predicate IsProject(s: string) {
    2 <= |s| <= 256 && IsLetter(s[0]) && AllAlnum(s)
  }

  /** The part after the dash: 1 to 256 digits, without a leading zero. */
  predicate IsNumber(s: string) {
    1 <= |s| <= 256 && Decimal.AllDigits(s) && s[0] != '0'
  }

  ghost predicate IsKey(s: string) {
    exists d: nat :: DashAt(s, d)
  }

  /** The dash stands at `d`. */
  predicate DashAt(s: string, d: nat) {
    d < |s| && s[d] == '-' && IsProject(s[..d]) && IsNumber(s[d + 1..])
  }

  /** Between two characters that are neither letters nor digits, or at an end of the text. */
  predicate Delimited(text: string, i: nat, j: nat)
    requires i <= j <= |text|
  {
    (i == 0 || !IsAlnum(text[i - 1])) && (j == |text| || !IsAlnum(text[j]))
  }

  ghost predicate KeyOccurs(text: string, i: nat, j: nat) {
    i < j <= |text| && IsKey(text[i..j]) && Delimited(text, i, j)
  }

  // ---- Scanning one key ---------------------------------------------------------------------------------------------

  /** The end of the longest run of letters and digits from `i` on. */
  function AlnumEnd(text: string, i: nat): (j: nat)
    requires i <= |text|
    ensures i <= j <= |text| && AllAlnum(text[i..j]) && (j < |text| ==> !IsAlnum(text[j]))
    decreases |text| - i
  {
    if i < |text| && IsAlnum(text[i]) then AlnumEnd(text, i + 1) else i
  }

  lemma {:induction false} AlnumEndAt(text: string, i: nat, j: nat)
    requires i <= j <= |text| && AllAlnum(text[i..j]) && (j < |text| ==> !IsAlnum(text[j]))
    ensures AlnumEnd(text, i) == j
    decreases j - i
  {
    if i < j {
      assert text[i] == text[i..j][0];
      assert text[i + 1..j] == text[i..j][1..];
      AlnumEndAt(text, i + 1, j);
    }
  }

  /**
   * `[A-Z][A-Z\d]{1,255}-[1-9]\d{0,255}` from `i` on, or `i` where it does not match. A dash can only follow the whole
   * run of letters and digits, so there is nothing to backtrack to; the digits are taken to the end of their run,
   * because both regular expressions go on with something that is not a digit.
   */
  function KeyEnd(text: string, i: nat): (j: nat)
    requires i <= |text|
    ensures i <= j <= |text|
  {
    var dash := AlnumEnd(text, i);
    if !IsProject(text[i..dash]) || dash == |text| || text[dash] != '-' then i
    else
      var end := Decimal.DigitsEnd(text, dash + 1);
      if IsNumber(text[dash + 1..end]) then end else i
  }

  lemma KeyEndIsKey(text: string, i: nat)
    requires i <= |text| && i < KeyEnd(text, i)
    ensures var j := KeyEnd(text, i); IsKey(text[i..j]) && (j < |text| ==> !Decimal.IsDigit(text[j]))
  {
    hide IsProject, IsNumber;
    var j, dash := KeyEnd(text, i), AlnumEnd(text, i);
    var key := text[i..j];
    assert key[..dash - i] == text[i..dash];
    assert key[dash - i + 1..] == text[dash + 1..j];
    assert DashAt(key, dash - i);
  }

  lemma KeyIsFound(text: string, i: nat, j: nat)
    requires i < j <= |text| && IsKey(text[i..j]) && (j < |text| ==> !Decimal.IsDigit(text[j]))
    ensures KeyEnd(text, i) == j
  {
    var key := text[i..j];
    var d: nat :| DashAt(key, d);
    assert AllAlnum(key[..d]) && Decimal.AllDigits(key[d + 1..]);
    hide IsProject, IsNumber, AllAlnum, Decimal.AllDigits;
    assert text[i..i + d] == key[..d];
    assert text[i + d] == '-';
    assert text[i + d + 1..j] == key[d + 1..];
    AlnumEndAt(text, i, i + d);
    Decimal.DigitsEndAt(text, i + d + 1, j);
  }

  // The scanner stops at `j` exactly when a key stands between `i` and `j` and no digit follows.
  lemma KeyEndExact(text: string, i: nat, j: nat)
    requires i < j <= |text|
    ensures KeyEnd(text, i) == j <==> IsKey(text[i..j]) && (j < |text| ==> !Decimal.IsDigit(text[j]))
  {
    hide KeyEnd, IsKey;
    if KeyEnd(text, i) == j {
      KeyEndIsKey(text, i);
    }
    if IsKey(text[i..j]) && (j < |text| ==> !Decimal.IsDigit(text[j])) {
      KeyIsFound(text, i, j);
    }
  }

  // Inside a key there is one character that is no letter or digit, and a digit follows it.
  lemma InsideKey(text: string, i: nat, j: nat, k: nat)
    requires i <= k < j <= |text| && IsKey(text[i..j]) && !IsAlnum(text[k])
    ensures k + 1 < j && Decimal.IsDigit(text[k + 1])
  {
    var key := text[i..j];
    var d: nat :| DashAt(key, d);
    assert key[k - i] == text[k];
    forall x | 0 <= x < |key| && x != d
      ensures IsAlnum(key[x])
    {
      if x < d {
        assert key[..d][x] == key[x];
      } else {
        assert key[d + 1..][x - d - 1] == key[x];
      }
    }
    assert key[d + 1..][0] == text[k + 1];
  }

  // ---- The regular expression for plain text ------------------------------------------------------------------------

  /** Where a key was found. */
  datatype Found = NotFound | Found(start: nat, end: nat)

  /** A key from `i` on, with the look-ahead. */
  function KeyAt(text: string, i: nat): (found: Found)
    requires i <= |text|
    ensures found.Found? ==> found.start == i && i < found.end <= |text|
  {
    var j := KeyEnd(text, i);
    if j > i && (j == |text| || !IsAlnum(text[j])) then Found(i, j) else NotFound
  }

  /** The regular expression tried at index `p`: the start of the text first, then a delimiter that is consumed. */
  function MatchAt(text: string, p: nat): (found: Found)
    requires p <= |text|
    ensures found.Found? ==> p <= found.start < found.end <= |text|
  {
    if p == 0 && KeyAt(text, 0).Found? then KeyAt(text, 0)
    else if p < |text| && !IsAlnum(text[p]) then KeyAt(text, p + 1)
    else NotFound
  }

  /** The first match from `p` on. */
  function Exec(text: string, p: nat): (found: Found)
    requires p <= |text|
    ensures found.Found? ==> p <= found.start < found.end <= |text|
    decreases |text| - p
  {
    var found := MatchAt(text, p);
    if found.Found? || p == |text| then found else Exec(text, p + 1)
  }

  /** `matchAll`: each search goes on where the last match ended. */
  function MatchAll(text: string, p: nat): seq<Found>
    requires p <= |text|
    decreases |text| - p
  {
    var found := Exec(text, p);
    if found.NotFound? then [] else [found] + MatchAll(text, found.end)
  }

  /** The index at which the match of a key at `i` begins, delimiter included. */
  function MatchStart(i: nat): nat {
    if i == 0 then 0 else i - 1
  }

  lemma KeyAtExact(text: string, i: nat, j: nat)
    requires i <= |text|
    ensures KeyAt(text, i) == Found(i, j) <==>
              i < j <= |text| && IsKey(text[i..j]) && (j == |text| || !IsAlnum(text[j]))
  {
    hide KeyEnd, IsKey;
    if i < j <= |text| {
      KeyEndExact(text, i, j);
    }
  }

  lemma KeyStartsWithLetter(text: string, i: nat, j: nat)
    requires i < j <= |text| && IsKey(text[i..j])
    ensures IsLetter(text[i])
  {
    var d: nat :| DashAt(text[i..j], d);
    assert text[i..j][..d][0] == text[i];
  }

  lemma MatchAtExact(text: string, p: nat, i: nat, j: nat)
    requires p <= |text|
    ensures MatchAt(text, p) == Found(i, j) <==> KeyOccurs(text, i, j) && MatchStart(i) == p
  {
    hide KeyAt, IsKey;
    KeyAtExact(text, p, j);
    if p < |text| {
      KeyAtExact(text, p + 1, j);
    }
    if KeyAt(text, 0).Found? {
      KeyAtExact(text, 0, KeyAt(text, 0).end);
      KeyStartsWithLetter(text, 0, KeyAt(text, 0).end);
    }
  }

  // The search finds the leftmost occurrence and passes over none.
  lemma {:induction false} ExecExact(text: string, p: nat)
    requires p <= |text|
    ensures var found := Exec(text, p);
            && (found.Found? ==> KeyOccurs(text, found.start, found.end) && MatchStart(found.start) >= p)
            && (forall i, j | KeyOccurs(text, i, j) && MatchStart(i) >= p ::
                  found.Found? && (found == Found(i, j) || found.start < i))
    decreases |text| - p
  {
    hide KeyOccurs;
    var found := MatchAt(text, p);
    if found.Found? {
      MatchAtExact(text, p, found.start, found.end);
    }
    forall i, j | KeyOccurs(text, i, j) && MatchStart(i) == p
      ensures found == Found(i, j)
    {
      MatchAtExact(text, p, i, j);
    }
    if found.NotFound? && p < |text| {
      ExecExact(text, p + 1);
    }
    if p == |text| {
      NoKeyAtEnd(text);
    }
  }

  lemma NoKeyAtEnd(text: string)
    ensures forall i, j | KeyOccurs(text, i, j) :: MatchStart(i) < |text|
  {
  }

  // Two occurrences never overlap and never share more than one delimiter.
  lemma OccurrencesApart(text: string, i: nat, j: nat, i2: nat, j2: nat)
    requires KeyOccurs(text, i, j) && KeyOccurs(text, i2, j2) && i < i2
    ensures j < i2
  {
    hide IsKey;
    KeyStartsWithLetter(text, i2, j2);
    if i2 - 1 < j {
      InsideKey(text, i, j, i2 - 1);
    }
  }

  // Main result, scanning: the matches are exactly the delimited occurrences, in the order of the text, including those
  // that share a delimiter with their neighbour.
  lemma {:induction false} MatchAllExact(text: string, p: nat)
    requires p <= |text|
    ensures forall i, j :: Found(i, j) in MatchAll(text, p) <==> KeyOccurs(text, i, j) && MatchStart(i) >= p
    ensures forall x, y | 0 <= x < y < |MatchAll(text, p)| ::
              MatchAll(text, p)[x].Found? && MatchAll(text, p)[y].Found?
                  && MatchAll(text, p)[x].end < MatchAll(text, p)[y].start
    decreases |text| - p
  {
    hide KeyOccurs;
    ExecExact(text, p);
    var found := Exec(text, p);
    if found.Found? {
      var rest := MatchAll(text, found.end);
      MatchAllExact(text, found.end);
      forall i, j
        ensures Found(i, j) in MatchAll(text, p) <==> KeyOccurs(text, i, j) && MatchStart(i) >= p
      {
        if KeyOccurs(text, i, j) && MatchStart(i) >= p && Found(i, j) != found {
          OccurrencesApart(text, found.start, found.end, i, j);
        }
      }
      forall y | 0 <= y < |rest|
        ensures rest[y].Found? && found.end < rest[y].start
      {
        RestIsFound(text, found.end, y);
        assert rest[y] == Found(rest[y].start, rest[y].end);
        assert rest[y] in rest;
        OccurrencesApart(text, found.start, found.end, rest[y].start, rest[y].end);
      }
    }
  }

  lemma {:induction false} RestIsFound(text: string, p: nat, y: nat)
    requires p <= |text| && y < |MatchAll(text, p)|
    ensures MatchAll(text, p)[y].Found? && MatchAll(text, p)[y].start >= p
    decreases |text| - p
  {
    var found := Exec(text, p);
    if y > 0 {
      RestIsFound(text, found.end, y - 1);
    }
  }

  // ---- The parser ---------------------------------------------------------------------------------------------------

  /** `uniq`: the first of equal elements stays. */
  function Uniq(s: seq<string>): seq<string> {
    if s == [] then []
    else
      var front, last := Uniq(s[..|s| - 1]), s[|s| - 1];
      if last in front then front else front + [last]
  }

  /** Every match spans a part of the text. */
  predicate InText(text: string, matches: seq<Found>) {
    forall m :: m in matches ==> m.Found? && m.start <= m.end <= |text|
  }

  function KeysOf(text: string, matches: seq<Found>): (keys: seq<string>)
    requires InText(text, matches)
    ensures |keys| == |matches| && forall x | 0 <= x < |keys| ::
        keys[x] == Upper(text[matches[x].start..matches[x].end])
  {
    seq(|matches|, x requires 0 <= x < |matches| =>
      assert matches[x] in matches;
      Upper(text[matches[x].start..matches[x].end]))
  }

  lemma MatchesInRange(text: string)
    ensures InText(text, MatchAll(text, 0))
  {
    MatchAllExact(text, 0);
    var matches := MatchAll(text, 0);
    forall m | m in matches
      ensures m.Found? && m.start <= m.end <= |text|
    {
      var y :| 0 <= y < |matches| && matches[y] == m;
      RestIsFound(text, 0, y);
      assert m == Found(m.start, m.end);
    }
  }

  function JiraIssueKeyParser(text: string): seq<string> {
    if text == "" then []
    else
      MatchesInRange(text);
      Uniq(KeysOf(text, MatchAll(text, 0)))
  }

  /** The upper-cased key `key` occurs at `i`. */
  ghost predicate OccursAs(text: string, key: string, i: nat) {
    exists j: nat :: KeyOccurs(text, i, j) && key == Upper(text[i..j])
  }

  /** `a` appears in `s` before any `b`. */
  ghost predicate ComesFirst(s: seq<string>, a: string, b: string) {
    exists k :: FirstBefore(s, k, a, b)
  }

  ghost predicate FirstBefore(s: seq<string>, k: int, a: string, b: string) {
    0 <= k < |s| && s[k] == a && forall l | 0 <= l < |s| && s[l] == b :: k < l
  }

  /** The elements of `u` are in the order of their first appearance in `s`. */
  ghost predicate InOrderOf(s: seq<string>, u: seq<string>) {
    forall x, y | 0 <= x < y < |u| :: ComesFirst(s, u[x], u[y])
  }

  lemma {:induction false} UniqExact(s: seq<string>)
    ensures var u := Uniq(s);
            && (forall x, y | 0 <= x < y < |u| :: u[x] != u[y])
            && (forall e :: e in u <==> e in s)
            && InOrderOf(s, u)
  {
    if s != [] {
      var front, last := s[..|s| - 1], s[|s| - 1];
      UniqExact(front);
      assert s == front + [last];
      var u := Uniq(s);
      forall x, y | 0 <= x < y < |u|
        ensures ComesFirst(s, u[x], u[y])
      {
        var shorter := Uniq(front);
        if y < |shorter| {
          assert u[x] == shorter[x] && u[y] == shorter[y];
          assert InOrderOf(front, shorter);
          assert ComesFirst(front, shorter[x], shorter[y]);
          var k :| FirstBefore(front, k, u[x], u[y]);
          assert FirstBefore(s, k, u[x], u[y]) by {
            assert u[x] != u[y] && u[y] in front;
          }
        } else {
          assert u[x] in front;
          var k :| 0 <= k < |front| && front[k] == u[x];
          assert FirstBefore(s, k, u[x], u[y]);
        }
      }
    }
  }

  // The upper-cased matches are the occurrences ...
  lemma MatchOccurs(text: string, x: nat)
    requires InText(text, MatchAll(text, 0)) && x < |MatchAll(text, 0)|
    ensures var matches := MatchAll(text, 0);
            matches[x].Found? && OccursAs(text, KeysOf(text, matches)[x], matches[x].start)
  {
    hide KeyOccurs, Upper, MatchAll;
    MatchAllExact(text, 0);
    var m := MatchAll(text, 0)[x];
    assert m in MatchAll(text, 0);
    assert KeyOccurs(text, m.start, m.end);
  }

  lemma OccurrenceIsMatched(text: string, key: string, i: nat) returns (x: nat)
    requires InText(text, MatchAll(text, 0)) && OccursAs(text, key, i)
    ensures var matches := MatchAll(text, 0);
            x < |matches| && KeysOf(text, matches)[x] == key && matches[x].Found? && matches[x].start == i
  {
    hide KeyOccurs, Upper, MatchAll;
    MatchAllExact(text, 0);
    var matches := MatchAll(text, 0);
    var j: nat :| KeyOccurs(text, i, j) && key == Upper(text[i..j]);
    assert Found(i, j) in matches;
    x :| 0 <= x < |matches| && matches[x] == Found(i, j);
  }

  // ... in the order of the text.
  lemma MatchesAscend(text: string, k: nat, l: nat)
    requires InText(text, MatchAll(text, 0)) && k < l < |MatchAll(text, 0)|
    ensures var matches := MatchAll(text, 0);
            matches[k].Found? && matches[l].Found? && matches[k].start < matches[l].start
  {
    hide KeyOccurs, MatchAll;
    MatchAllExact(text, 0);
    assert MatchAll(text, 0)[k] in MatchAll(text, 0);
  }

  /** The key `a` occurs somewhere before every occurrence of `b`. */
  ghost predicate OccursBefore(text: string, a: string, b: string) {
    exists i: nat :: OccursAs(text, a, i) && forall i2: nat | OccursAs(text, b, i2) :: i < i2
  }

  lemma FirstInTheText(text: string, a: string, b: string)
    requires InText(text, MatchAll(text, 0)) && ComesFirst(KeysOf(text, MatchAll(text, 0)), a, b)
    ensures OccursBefore(text, a, b)
  {
    hide OccursAs, MatchAll, KeysOf, InText;
    var matches := MatchAll(text, 0);
    var all := KeysOf(text, matches);
    var k :| FirstBefore(all, k, a, b);
    MatchOccurs(text, k);
    forall i2: nat | OccursAs(text, b, i2)
      ensures matches[k].start < i2
    {
      var l := OccurrenceIsMatched(text, b, i2);
      MatchesAscend(text, k, l);
    }
  }

  // Main result: over every text, the parser returns each occurring key once, upper-cased, in the order of first
  // appearance, and nothing else.
  lemma ParserIsExact(text: string)
    ensures var keys := JiraIssueKeyParser(text);
            && (forall x, y | 0 <= x < y < |keys| :: keys[x] != keys[y])
            && (forall key :: key in keys <==> exists i: nat :: OccursAs(text, key, i))
            && (forall x, y | 0 <= x < y < |keys| :: OccursBefore(text, keys[x], keys[y]))
  {
    hide OccursAs, OccursBefore, MatchAll, ComesFirst, Uniq;
    if text != "" {
      MatchesInRange(text);
      var matches := MatchAll(text, 0);
      var all := KeysOf(text, matches);
      var keys := JiraIssueKeyParser(text);
      UniqExact(all);
      assert keys == Uniq(all);
      forall key
        ensures key in keys <==> exists i: nat :: OccursAs(text, key, i)
      {
        if key in all {
          var x :| 0 <= x < |all| && all[x] == key;
          MatchOccurs(text, x);
        }
        if i: nat :| OccursAs(text, key, i) {
          var x := OccurrenceIsMatched(text, key, i);
        }
      }
      forall x, y | 0 <= x < y < |keys|
        ensures OccursBefore(text, keys[x], keys[y])
      {
        FirstInTheText(text, keys[x], keys[y]);
      }
    } else {
      EmptyTextHasNoKeys();
    }
  }

  lemma EmptyTextHasNoKeys()
    ensures forall key: string, i: nat :: !OccursAs("", key, i)
  {
  }
}
