/**
 * Reference links for the issue keys in a text (src/jira/util/jira-client-util.ts): the stateful loop over the matches
 * of the square-bracket expression, and what applying it once and twice does to a text.
 */
module Unfurl {
  import Decimal
  import opened IssueKeys
  import opened Text

  // ---- The square-bracket expression --------------------------------------------------------------------------------

  /** `\[KEY\]` with the opening bracket at index `b`; the result spans the key. */
  function InBracketsAt(text: string, b: nat): (found: Found)
    requires b <= |text|
    ensures found.Found? ==> b < found.start < found.end < |text|
  {
    if b == |text| || text[b] != '[' then NotFound
    else
      var end := KeyEnd(text, b + 1);
      if end > b + 1 && end < |text| && text[end] == ']' then Found(b + 1, end) else NotFound
  }

  /** The expression tried at index `p`: the start of the text first, then a delimiter that is consumed. */
  function BracketAt(text: string, p: nat): (found: Found)
    requires p <= |text|
    ensures found.Found? ==> p < found.start < found.end < |text|
  {
    if p == 0 && InBracketsAt(text, 0).Found? then InBracketsAt(text, 0)
    else if p < |text| && !IsAlnum(text[p]) then InBracketsAt(text, p + 1)
    else NotFound
  }

  /** `exec` with `lastIndex` at `p`. */
  function ExecBracket(text: string, p: nat): (found: Found)
    requires p <= |text|
    ensures found.Found? ==> p < found.start < found.end < |text|
    decreases |text| - p
  {
    var found := BracketAt(text, p);
    if found.Found? || p == |text| then found else ExecBracket(text, p + 1)
  }

  const SCAN_LIMIT: nat := 1000

  /** The loop goes on while `lastIndex`, which counts code units, is under the limit. */
  predicate WithinLimit(text: string, p: nat)
    requires p <= |text|
  {
    |Utf16(text[..p])| < SCAN_LIMIT
  }

  /** The matches that the loop visits from `p` on; each search starts behind the closing bracket of the last match. */
  function Visited(text: string, p: nat): seq<Found>
    requires p <= |text|
    decreases |text| - p
  {
    if !WithinLimit(text, p) then []
    else
      var found := ExecBracket(text, p);
      if found.NotFound? then [] else [found] + Visited(text, found.end + 1)
  }

  // ---- What is visited, without the scanner -------------------------------------------------------------------------

  /** A key in square brackets that stand at the start of the text or behind something that is no letter or digit. */
  ghost predicate Bracketed(text: string, i: nat, j: nat) {
    && 0 < i < j < |text| && text[i - 1] == '[' && text[j] == ']' && IsKey(text[i..j])
    && (i == 1 || !IsAlnum(text[i - 2]))
  }

  /** The index at which the match of a key at `i` begins, delimiter included. */
  function BracketStart(i: nat): nat {
    if i <= 1 then 0 else i - 2
  }

  lemma InBracketsExact(text: string, b: nat, i: nat, j: nat)
    requires b <= |text|
    ensures InBracketsAt(text, b) == Found(i, j) <==>
              i == b + 1 && i < j < |text| && text[b] == '[' && text[j] == ']' && IsKey(text[i..j])
  {
    hide KeyEnd, IsKey;
    if i == b + 1 && i < j < |text| {
      KeyEndExact(text, i, j);
    }
  }

  lemma BracketAtExact(text: string, p: nat, i: nat, j: nat)
    requires p <= |text|
    ensures BracketAt(text, p) == Found(i, j) <==> Bracketed(text, i, j) && BracketStart(i) == p
  {
    hide InBracketsAt, IsKey;
    InBracketsExact(text, p, i, j);
    if p < |text| {
      InBracketsExact(text, p + 1, i, j);
    }
    var first := InBracketsAt(text, 0);
    if first.Found? {
      InBracketsExact(text, 0, first.start, first.end);
      KeyStartsWithLetter(text, first.start, first.end);
    }
  }

  lemma {:induction false} ExecBracketExact(text: string, p: nat)
    requires p <= |text|
    ensures var found := ExecBracket(text, p);
            && (found.Found? ==> Bracketed(text, found.start, found.end) && BracketStart(found.start) >= p)
            && (forall i, j | Bracketed(text, i, j) && BracketStart(i) >= p ::
                  found.Found? && (found == Found(i, j) || found.start < i))
    decreases |text| - p
  {
    hide Bracketed;
    var found := BracketAt(text, p);
    if found.Found? {
      BracketAtExact(text, p, found.start, found.end);
    }
    forall i, j | Bracketed(text, i, j) && BracketStart(i) == p
      ensures found == Found(i, j)
    {
      BracketAtExact(text, p, i, j);
    }
    if found.NotFound? && p < |text| {
      ExecBracketExact(text, p + 1);
    }
    forall i, j | Bracketed(text, i, j) && BracketStart(i) >= p
      ensures p < |text|
    {
      BracketStartInText(text, i, j);
    }
    if found.Found? {
      forall i, j | Bracketed(text, i, j) && BracketStart(i) > p
        ensures found.start < i
      {
        TwoStarts(text, found.start, found.end, i, j);
      }
    }
  }

  lemma BracketStartInText(text: string, i: nat, j: nat)
    requires Bracketed(text, i, j)
    ensures BracketStart(i) < |text|
  {
  }

  lemma TwoStarts(text: string, i: nat, j: nat, i2: nat, j2: nat)
    requires Bracketed(text, i, j) && Bracketed(text, i2, j2) && BracketStart(i) < BracketStart(i2)
    ensures i < i2
  {
  }

  // Two bracketed keys never overlap.
  lemma BracketsApart(text: string, i: nat, j: nat, i2: nat, j2: nat)
    requires Bracketed(text, i, j) && Bracketed(text, i2, j2) && i < i2
    ensures j < i2
  {
    hide IsKey;
    KeyStartsWithLetter(text, i2, j2);
    if i2 - 1 < j {
      InsideKey(text, i, j, i2 - 1);
    }
  }

  lemma {:induction false} VisitedAfter(text: string, p: nat, m: Found)
    requires p <= |text| && m in Visited(text, p)
    ensures m.Found? && p < m.start < m.end && Bracketed(text, m.start, m.end)
    decreases |text| - p
  {
    hide Bracketed, WithinLimit;
    ExecBracketExact(text, p);
    var found := ExecBracket(text, p);
    if m != found {
      VisitedAfter(text, found.end + 1, m);
    }
  }

  /** No visited match before `i` takes the delimiter in front of it, or leaves `lastIndex` at the limit. */
  ghost predicate Reached(text: string, visited: seq<Found>, i: nat) {
    forall m | m in visited && m.Found? && m.end < i ::
      m.end < BracketStart(i) && m.end < |text| && WithinLimit(text, m.end + 1)
  }

  // The loop visits a bracketed key exactly if it is reached: in "[AB-1][CD-2]" the first match takes the delimiter of
  // the second, which is therefore passed over.
  lemma {:induction false} VisitedExact(text: string, p: nat, i: nat, j: nat)
    requires p <= |text|
    ensures Found(i, j) in Visited(text, p) <==>
              && Bracketed(text, i, j) && BracketStart(i) >= p
              && WithinLimit(text, p) && Reached(text, Visited(text, p), i)
    decreases |text| - p
  {
    hide Bracketed, WithinLimit, Utf16, ExecBracket;
    var visited := Visited(text, p);
    ExecBracketExact(text, p);
    var found := ExecBracket(text, p);
    if WithinLimit(text, p) && found.Found? {
      var rest := Visited(text, found.end + 1);
      VisitedExact(text, found.end + 1, i, j);
      forall m | m in rest
        ensures m.Found? && found.end < m.start && found.end < m.end
      {
        VisitedAfter(text, found.end + 1, m);
      }
      if Bracketed(text, i, j) && found.start < i {
        BracketsApart(text, found.start, found.end, i, j);
      }
      assert visited == [found] + rest;
      assert forall m :: m in visited <==> m == found || m in rest;
      assert Reached(text, visited, i) ==> Reached(text, rest, i);
    }
  }

  lemma NothingScannedYet(text: string)
    ensures WithinLimit(text, 0)
  {
    assert text[..0] == "";
  }

  /** The rule read off the text alone, from the left: a key is passed over if one that is not takes its delimiter. */
  ghost predicate Considered(text: string, i: nat, j: nat)
    decreases i
  {
    && Bracketed(text, i, j)
    && forall i2: nat, j2: nat | i2 < i && Considered(text, i2, j2) ::
         j2 < |text| && j2 + 2 != i && WithinLimit(text, j2 + 1)
  }

  lemma {:induction false} VisitedIsConsidered(text: string, i: nat, j: nat)
    ensures Found(i, j) in Visited(text, 0) <==> Considered(text, i, j)
    decreases i
  {
    hide Visited, WithinLimit;
    VisitedExact(text, 0, i, j);
    NothingScannedYet(text);
    forall i2: nat, j2: nat | i2 < i
      ensures Found(i2, j2) in Visited(text, 0) <==> Considered(text, i2, j2)
    {
      VisitedIsConsidered(text, i2, j2);
    }
    if Bracketed(text, i, j) {
      ReachedOnText(text, i, j);
    }
  }

  // For a bracketed key, being reached is about the visited keys that start before it.
  lemma ReachedOnText(text: string, i: nat, j: nat)
    requires Bracketed(text, i, j)
    ensures Reached(text, Visited(text, 0), i) <==>
              forall i2: nat, j2: nat | i2 < i && Found(i2, j2) in Visited(text, 0) ::
                j2 < |text| && j2 + 2 != i && WithinLimit(text, j2 + 1)
  {
    hide Visited, WithinLimit, IsKey, Reached;
    var visited := Visited(text, 0);
    forall m | m in visited
      ensures m.Found? && m.end < |text| && text[m.end] == ']' && 0 < m.start
      ensures m.start < i <==> m.end < i
      ensures m.end < i ==> (m.end < BracketStart(i) <==> m.end + 2 != i)
    {
      VisitedAfter(text, 0, m);
      if m.start < i {
        BracketsApart(text, m.start, m.end, i, j);
      }
    }
    ReachedByVisited(text, visited, i);
  }

  lemma ReachedByVisited(text: string, visited: seq<Found>, i: nat)
    requires forall m | m in visited :: m.Found? && m.end < |text| && (m.start < i <==> m.end < i)
                                        && (m.end < i ==> (m.end < BracketStart(i) <==> m.end + 2 != i))
    ensures Reached(text, visited, i) <==>
              forall i2: nat, j2: nat | i2 < i && Found(i2, j2) in visited ::
                j2 < |text| && j2 + 2 != i && WithinLimit(text, j2 + 1)
  {
    hide WithinLimit;
    if forall i2: nat, j2: nat | i2 < i && Found(i2, j2) in visited ::
         j2 < |text| && j2 + 2 != i && WithinLimit(text, j2 + 1) {
      forall m | m in visited && m.Found? && m.end < i
        ensures m.end < BracketStart(i) && m.end < |text| && WithinLimit(text, m.end + 1)
      {
        assert m == Found(m.start, m.end);
      }
    }
  }

  /** No bracketed key stands right behind another one, and all but the last end within the limit. */
  ghost predicate SetApart(text: string) {
    forall i: nat, j: nat, i2: nat, j2: nat | Bracketed(text, i, j) && Bracketed(text, i2, j2) && i < i2 ::
      i2 != j + 2 && WithinLimit(text, j + 1)
  }

  // Main result: the loop visits every bracketed key if and only if no two of them share the delimiter in between and
  // all but the last end within the limit.
  lemma AllVisitedIff(text: string)
    ensures (forall i: nat, j: nat | Bracketed(text, i, j) :: Found(i, j) in Visited(text, 0)) <==> SetApart(text)
  {
    hide Bracketed, Visited, WithinLimit;
    if SetApart(text) {
      forall i: nat, j: nat | Bracketed(text, i, j)
        ensures Found(i, j) in Visited(text, 0)
      {
        AllConsidered(text, i, j);
        VisitedIsConsidered(text, i, j);
      }
    }
    if forall i: nat, j: nat | Bracketed(text, i, j) :: Found(i, j) in Visited(text, 0) {
      forall i: nat, j: nat, i2: nat, j2: nat | Bracketed(text, i, j) && Bracketed(text, i2, j2) && i < i2
        ensures i2 != j + 2 && j < |text| && WithinLimit(text, j + 1)
      {
        VisitedIsConsidered(text, i, j);
        VisitedIsConsidered(text, i2, j2);
      }
    }
  }

  lemma AllConsidered(text: string, i: nat, j: nat)
    requires SetApart(text) && Bracketed(text, i, j)
    ensures Considered(text, i, j)
  {
    hide WithinLimit, IsKey;
    forall i2: nat, j2: nat | i2 < i && Considered(text, i2, j2)
      ensures j2 < |text| && j2 + 2 != i && WithinLimit(text, j2 + 1)
    {
      assert Bracketed(text, i2, j2);
    }
  }

  // Of two bracketed keys side by side only the first is visited.
  lemma SecondIsPassedOver()
    ensures var text := "[AB-1][CD-2]";
            && Bracketed(text, 1, 5) && Found(1, 5) in Visited(text, 0)
            && Bracketed(text, 7, 11) && Found(7, 11) !in Visited(text, 0)
  {
    hide Visited;
    var text := "[AB-1][CD-2]";
    assert text[1..5] == "AB-1" && text[7..11] == "CD-2";
    assert "AB-1"[..2] == "AB" && "AB-1"[3..] == "1" && "CD-2"[..2] == "CD" && "CD-2"[3..] == "2";
    assert DashAt("AB-1", 2) && DashAt("CD-2", 2);
    assert WithinLimit(text, 0) by {
      assert text[..0] == "";
    }
    VisitedExact(text, 0, 1, 5);
    forall m | m in Visited(text, 0)
      ensures m.Found? && 0 < m.start < m.end
    {
      VisitedAfter(text, 0, m);
    }
    VisitedExact(text, 0, 7, 11);
  }

  // ---- The links ----------------------------------------------------------------------------------------------------

  /** The Jira client's base URL and the tracking identifier, empty where none is configured. */
  datatype Site = Site(baseUrl: string, trackingId: string)

  function Reference(site: Site, key: string): string {
    "[" + key + "]: " + site.baseUrl + "/browse/" + key + if site.trackingId == "" then ""
        else "?atlOrigin=" + site.trackingId
  }

  predicate ContainsReferenceLink(line: string) {
    && |Split(line, ' ')| == 2
    && line != "" && line[0] == '[' && Includes(line, "]:")
    && (Includes(line, "http://") || Includes(line, "https://"))
  }

  /** The keys of the reference lines. */
  function ReferenceKeys(lines: seq<string>): seq<string> {
    if lines == [] then []
    else (if ContainsReferenceLink(lines[0]) then [KeyOfReference(lines[0])] else []) + ReferenceKeys(lines[1..])
  }

  /** `slice(1, indexOf("]"))`. */
  function KeyOfReference(line: string): string
    requires ContainsReferenceLink(line)
  {
    var end := IndexOf(line, ']');
    if end < 1 then "" else line[1..end]
  }

  function CheckForReferenceText(text: string): seq<string> {
    ReferenceKeys(Split(text, '\n'))
  }

  /** The text refers to the key, by a reference line or by the very reference that would be added. */
  predicate Referred(text: string, site: Site, key: string) {
    key in CheckForReferenceText(text) || Includes(text, Reference(site, key))
  }

  /** A link is added for a valid issue that the text does not refer to yet. */
  predicate Wanted(text: string, issues: seq<string>, site: Site, key: string) {
    key in issues && !Referred(text, site, key)
  }

  function LinksFrom(text: string, issues: seq<string>, site: Site, p: nat): seq<string>
    requires p <= |text|
    decreases |text| - p
  {
    if !WithinLimit(text, p) then []
    else
      var found := ExecBracket(text, p);
      if found.NotFound? then []
      else
        var key := text[found.start..found.end];
        (if Wanted(text, issues, site, key) then [Reference(site, key)] else [])
        + LinksFrom(text, issues, site, found.end + 1)
  }

  function Linked(text: string, issues: seq<string>, site: Site): string {
    var links := LinksFrom(text, issues, site, 0);
    if links == [] then text else text + "\n\n" + Join(links, "\n")
  }

  method AddJiraIssueLinks(text: string, issues: seq<string>, site: Site) returns (r: string)
    ensures r == Linked(text, issues, site)
  {
    hide Utf16, ExecBracket, Reference, CheckForReferenceText, Includes, Join;
    var links: seq<string> := [];
    var keys := CheckForReferenceText(text);
    var lastIndex := 0;
    while WithinLimit(text, lastIndex)
      invariant lastIndex <= |text|
      invariant links + LinksFrom(text, issues, site, lastIndex) == LinksFrom(text, issues, site, 0)
      decreases |text| - lastIndex
    {
      var found := ExecBracket(text, lastIndex);
      if found.NotFound? {
        break;
      }
      lastIndex := found.end + 1;
      var key := text[found.start..found.end];
      if key in keys || key !in issues {
        continue;
      }
      var reference := Reference(site, key);
      if Includes(text, reference) {
        continue;
      }
      ghost var rest := LinksFrom(text, issues, site, lastIndex);
      assert links + ([reference] + rest) == (links + [reference]) + rest;
      links := links + [reference];
    }
    assert LinksFrom(text, issues, site, lastIndex) == [];
    assert links == LinksFrom(text, issues, site, 0);
    r := if links == [] then text else text + "\n\n" + Join(links, "\n");
  }

  // Every added line refers to a valid issue that stands in brackets in the text and that the text did not refer to;
  // and every such issue that the loop visits gets a line.
  lemma {:induction false} LinksExact(text: string, issues: seq<string>, site: Site, p: nat, link: string)
    requires p <= |text|
    ensures link in LinksFrom(text, issues, site, p) <==> LinksOne(text, issues, site, Visited(text, p), link)
    decreases |text| - p
  {
    hide Wanted, Reference, WithinLimit, ExecBracket, IsLinkOf;
    var found := ExecBracket(text, p);
    if WithinLimit(text, p) && found.Found? {
      var rest := Visited(text, found.end + 1);
      LinksExact(text, issues, site, found.end + 1, link);
      assert link in LinksFrom(text, issues, site, p) <==>
        link in LinksFrom(text, issues, site, found.end + 1) || IsLinkOf(text, issues, site, found, link) by {
        OneLink(text, issues, site, found, link);
      }
      var visited := [found] + rest;
      assert Visited(text, p) == visited;
      LinksOneMore(text, issues, site, found, rest, link);
    } else {
      assert LinksFrom(text, issues, site, p) == [] && Visited(text, p) == [];
    }
  }

  lemma LinksOneMore(text: string, issues: seq<string>, site: Site, m: Found, rest: seq<Found>, link: string)
    ensures LinksOne(text, issues, site, [m] + rest, link) <==>
              IsLinkOf(text, issues, site, m, link) || LinksOne(text, issues, site, rest, link)
  {
    hide IsLinkOf;
    var all := [m] + rest;
    assert m == all[0];
    if LinksOne(text, issues, site, rest, link) {
      var other: Found :| other in rest && IsLinkOf(text, issues, site, other, link);
      assert other in all;
    }
  }

  lemma OneLink(text: string, issues: seq<string>, site: Site, m: Found, link: string)
    requires m.Found? && m.start <= m.end <= |text|
    ensures var key := text[m.start..m.end];
            link in (if Wanted(text, issues, site, key) then [Reference(site, key)] else [])
            <==> IsLinkOf(text, issues, site, m, link)
  {
    hide Wanted, Reference;
  }

  ghost predicate LinksOne(text: string, issues: seq<string>, site: Site, visited: seq<Found>, link: string) {
    exists m: Found :: m in visited && IsLinkOf(text, issues, site, m, link)
  }

  ghost predicate IsLinkOf(text: string, issues: seq<string>, site: Site, m: Found, link: string) {
    && m.Found? && m.start <= m.end <= |text|
    && Wanted(text, issues, site, text[m.start..m.end]) && link == Reference(site, text[m.start..m.end])
  }

  // ---- Applying it again --------------------------------------------------------------------------------------------

  // What follows a line break does not change the keys before it.
  lemma KeyEndBeforeTail(text: string, tail: string, i: nat)
    requires i <= |text| && tail != "" && tail[0] == '\n'
    ensures KeyEnd(text + tail, i) == KeyEnd(text, i)
  {
    hide IsProject, IsNumber, AlnumEnd, Decimal.DigitsEnd;
    var whole, dash := text + tail, AlnumEnd(text, i);
    RunsBeforeTail(text, tail, i);
    assert whole[i..dash] == text[i..dash];
    if dash < |text| {
      var end := Decimal.DigitsEnd(text, dash + 1);
      RunsBeforeTail(text, tail, dash + 1);
      assert whole[dash + 1..end] == text[dash + 1..end];
    }
  }

  lemma RunsBeforeTail(text: string, tail: string, i: nat)
    requires i <= |text| && tail != "" && tail[0] == '\n'
    ensures AlnumEnd(text + tail, i) == AlnumEnd(text, i)
    ensures Decimal.DigitsEnd(text + tail, i) == Decimal.DigitsEnd(text, i)
  {
    hide AlnumEnd, Decimal.DigitsEnd;
    var whole, j, k := text + tail, AlnumEnd(text, i), Decimal.DigitsEnd(text, i);
    assert whole[i..j] == text[i..j] && whole[i..k] == text[i..k];
    AlnumEndAt(whole, i, j);
    Decimal.DigitsEndAt(whole, i, k);
  }

  lemma BracketAtBeforeTail(text: string, tail: string, p: nat)
    requires p < |text| && tail != "" && tail[0] == '\n'
    ensures BracketAt(text + tail, p) == BracketAt(text, p)
  {
    hide KeyEnd;
    if p == 0 {
      KeyEndBeforeTail(text, tail, 1);
    }
    if p + 1 < |text| {
      KeyEndBeforeTail(text, tail, p + 2);
    }
  }

  lemma {:induction false} ExecBeforeTail(text: string, tail: string, p: nat)
    requires p <= |text| && tail != "" && tail[0] == '\n'
    ensures var found, longer := ExecBracket(text, p), ExecBracket(text + tail, p);
            if found.Found? then longer == found else longer.NotFound? || longer.start > |text|
    decreases |text| - p
  {
    if p < |text| {
      BracketAtBeforeTail(text, tail, p);
      ExecBeforeTail(text, tail, p + 1);
    }
  }

  lemma {:induction false} VisitedBeforeTail(text: string, tail: string, p: nat, m: Found)
    requires p <= |text| && tail != "" && tail[0] == '\n' && m in Visited(text + tail, p)
    ensures m.Found? && (m in Visited(text, p) || m.start > |text|)
    decreases |text| - p
  {
    hide ExecBracket, Utf16;
    var whole := text + tail;
    assert whole[..p] == text[..p];
    ExecBeforeTail(text, tail, p);
    VisitedAfter(whole, p, m);
    var found := ExecBracket(whole, p);
    if m != found {
      VisitedAfter(whole, found.end + 1, m);
      if ExecBracket(text, p).Found? {
        VisitedBeforeTail(text, tail, found.end + 1, m);
      }
    }
  }

  // The tail consists of the lines: an opening bracket in it is the start of a line.
  lemma {:induction false} JoinBrackets(links: seq<string>, x: nat)
    requires forall link | link in links :: StartsWithOnlyBracket(link)
    requires x < |Join(links, "\n")| && Join(links, "\n")[x] == '['
    ensures exists l :: 0 <= l < |links| && HasAt(Join(links, "\n"), x, links[l])
  {
    var joined := Join(links, "\n");
    var first := links[0];
    assert first in links;
    if x < |first| {
      assert joined[..|first|] == first;
      assert x == 0;
      assert HasAt(joined, 0, links[0]);
    } else {
      var rest, y := Join(links[1..], "\n"), x - |first| - 1;
      assert joined == first + "\n" + rest;
      JoinBrackets(links[1..], y);
      var l :| 0 <= l < |links[1..]| && HasAt(rest, y, links[1..][l]);
      assert joined[x..x + |links[l + 1]|] == rest[y..y + |links[l + 1]|];
      assert HasAt(joined, x, links[l + 1]);
    }
  }

  predicate StartsWithOnlyBracket(s: string) {
    s != "" && s[0] == '[' && '[' !in s[1..]
  }

  lemma {:induction false} JoinIncludes(links: seq<string>, link: string)
    requires link in links
    ensures Includes(Join(links, "\n"), link)
  {
    var joined := Join(links, "\n");
    if links[0] == link {
      assert joined[..|link|] == link;
      assert HasAt(joined, 0, link);
    } else {
      JoinIncludes(links[1..], link);
      IncludesLonger(links[0] + "\n", Join(links[1..], "\n"), "", link);
      assert joined == links[0] + "\n" + Join(links[1..], "\n") + "";
    }
  }

  lemma {:induction false} KeysHaveNoBracket(key: string)
    requires IsKey(key)
    ensures '[' !in key
  {
    forall k | 0 <= k < |key|
      ensures key[k] != '['
    {
      var d: nat :| DashAt(key, d);
      if k < d {
        assert key[..d][k] == key[k];
      } else if k > d {
        assert key[d + 1..][k - d - 1] == key[k];
      }
    }
  }

  lemma ReferenceHasOneBracket(site: Site, key: string)
    requires IsKey(key) && '[' !in site.baseUrl && '[' !in site.trackingId
    ensures StartsWithOnlyBracket(Reference(site, key))
  {
    KeysHaveNoBracket(key);
    var r := Reference(site, key);
    var tracking := if site.trackingId == "" then "" else "?atlOrigin=" + site.trackingId;
    assert r[1..] == key + "]: " + site.baseUrl + "/browse/" + key + tracking;
  }

  // Text that is followed by a line break and more lines keeps its reference lines.
  lemma ReferencesStay(text: string, more: string)
    ensures forall key | key in CheckForReferenceText(text) :: key in CheckForReferenceText(text + "\n" + more)
  {
    SplitConcat(text, '\n', more);
    assert text + ['\n'] + more == text + "\n" + more;
    ReferenceKeysConcat(Split(text, '\n'), Split(more, '\n'));
  }

  lemma {:induction false} ReferenceKeysConcat(a: seq<string>, b: seq<string>)
    ensures ReferenceKeys(a + b) == ReferenceKeys(a) + ReferenceKeys(b)
  {
    hide ContainsReferenceLink, KeyOfReference;
    if a == [] {
      assert a + b == b;
    } else {
      assert (a + b)[1..] == a[1..] + b;
      ReferenceKeysConcat(a[1..], b);
    }
  }

  // A bracketed key in the added lines is the key of one of them, and so the result refers to it.
  lemma KeyInTail(text: string, links: seq<string>, site: Site, m: Found)
    requires '[' !in site.baseUrl && '[' !in site.trackingId
    requires forall link | link in links :: exists key :: IsKey(key) && link == Reference(site, key)
    requires var whole := text + "\n\n" + Join(links, "\n");
             m.Found? && m.start > |text| && Bracketed(whole, m.start, m.end)
    ensures var whole := text + "\n\n" + Join(links, "\n");
            Includes(whole, Reference(site, whole[m.start..m.end]))
  {
    hide Reference, IsKey, StartsWithOnlyBracket, HasAt, Join;
    var whole := text + "\n\n" + Join(links, "\n");
    forall link | link in links
      ensures StartsWithOnlyBracket(link)
    {
      var key :| IsKey(key) && link == Reference(site, key);
      ReferenceHasOneBracket(site, key);
    }
    var link := LineAt(text, links, m.start - 1);
    var key :| IsKey(key) && link == Reference(site, key);
    KeyIsAt(whole, m, site, key);
  }

  lemma LineAt(text: string, links: seq<string>, at: nat) returns (link: string)
    requires forall line | line in links :: StartsWithOnlyBracket(line)
    requires var whole := text + "\n\n" + Join(links, "\n"); |text| <= at < |whole| && whole[at] == '['
    ensures link in links && HasAt(text + "\n\n" + Join(links, "\n"), at, link)
  {
    hide StartsWithOnlyBracket, Join;
    var joined := Join(links, "\n");
    var whole := text + "\n\n" + joined;
    var before := |text| + 2;
    assert whole[..before] == text + "\n\n";
    JoinBrackets(links, at - before);
    var l :| 0 <= l < |links| && HasAt(joined, at - before, links[l]);
    link := links[l];
    assert whole[at..at + |link|] == joined[at - before..at - before + |link|];
  }

  lemma KeyIsAt(text: string, m: Found, site: Site, key: string)
    requires m.Found? && Bracketed(text, m.start, m.end) && IsKey(key)
    requires HasAt(text, m.start - 1, Reference(site, key))
    ensures text[m.start..m.end] == key
  {
    hide IsKey, KeyEnd, Reference, HasAt;
    var end := m.start + |key|;
    KeyOfReferenceAt(text, m.start, site, key);
    KeyIsNotEmpty(key);
    KeyEndExact(text, m.start, end);
    KeyEndExact(text, m.start, m.end);
  }

  lemma KeyOfReferenceAt(text: string, i: nat, site: Site, key: string)
    requires i > 0 && HasAt(text, i - 1, Reference(site, key))
    ensures i + |key| < |text| && text[i..i + |key|] == key && text[i + |key|] == ']'
  {
    var r := Reference(site, key);
    assert r[1..|key| + 1] == key && r[|key| + 1] == ']';
    var there := text[i - 1..i - 1 + |r|];
    assert there == r;
    assert forall k | 0 <= k < |r| :: text[i - 1 + k] == there[k];
    assert text[i..i + |key|] == key;
  }

  lemma KeyIsNotEmpty(key: string)
    requires IsKey(key)
    ensures key != ""
  {
  }

  // Main result: with no opening bracket in the base URL and the tracking identifier, adding the links again changes
  // nothing.
  lemma LinkingTwice(text: string, issues: seq<string>, site: Site)
    requires '[' !in site.baseUrl && '[' !in site.trackingId
    ensures Linked(Linked(text, issues, site), issues, site) == Linked(text, issues, site)
  {
    hide Bracketed, IsKey, Reference, CheckForReferenceText, Includes, Visited;
    var links := LinksFrom(text, issues, site, 0);
    var whole := Linked(text, issues, site);
    if links != [] {
      forall link
        ensures link !in LinksFrom(whole, issues, site, 0)
      {
        LinksExact(whole, issues, site, 0, link);
        forall m: Found | m in Visited(whole, 0)
          ensures !IsLinkOf(whole, issues, site, m, link)
        {
          NothingWanted(text, issues, site, m);
        }
      }
      var again := LinksFrom(whole, issues, site, 0);
      HasElement(again);
    }
  }

  lemma HasElement(s: seq<string>)
    ensures s == [] || exists x :: x in s
  {
    if s != [] {
      assert s[0] in s;
    }
  }

  lemma LinksAreReferences(text: string, issues: seq<string>, site: Site, link: string)
    requires link in LinksFrom(text, issues, site, 0)
    ensures exists key :: IsKey(key) && link == Reference(site, key)
  {
    hide IsKey, Reference, Wanted;
    LinksExact(text, issues, site, 0, link);
    var m: Found :| m in Visited(text, 0) && IsLinkOf(text, issues, site, m, link);
    VisitedAfter(text, 0, m);
    assert IsKey(text[m.start..m.end]);
  }

  lemma NothingWanted(text: string, issues: seq<string>, site: Site, m: Found)
    requires '[' !in site.baseUrl && '[' !in site.trackingId
    requires LinksFrom(text, issues, site, 0) != [] && m in Visited(Linked(text, issues, site), 0)
    ensures var whole := Linked(text, issues, site);
            m.Found? && m.start <= m.end <= |whole| && !Wanted(whole, issues, site, whole[m.start..m.end])
  {
    hide IsKey, Reference, CheckForReferenceText, Includes, Visited;
    var links, whole := LinksFrom(text, issues, site, 0), Linked(text, issues, site);
    var tail := "\n\n" + Join(links, "\n");
    assert whole == text + tail;
    VisitedAfter(whole, 0, m);
    VisitedBeforeTail(text, tail, 0, m);
    forall link | link in links
      ensures exists key :: IsKey(key) && link == Reference(site, key)
    {
      LinksAreReferences(text, issues, site, link);
    }
    if m.start > |text| {
      KeyInTail(text, links, site, m);
    } else {
      VisitedAfter(text, 0, m);
      var key := text[m.start..m.end];
      assert whole[m.start..m.end] == key;
      if key in issues {
        AlreadyReferred(text, issues, site, m);
      }
    }
  }

  lemma AddedIsIncluded(text: string, links: seq<string>, link: string)
    requires link in links
    ensures Includes(text + "\n\n" + Join(links, "\n"), link)
  {
    hide Includes, Join;
    var joined := Join(links, "\n");
    JoinIncludes(links, link);
    IncludesLonger(text + "\n\n", joined, "", link);
    assert text + "\n\n" + joined == text + "\n\n" + joined + "";
  }

  lemma ReferredLonger(text: string, more: string, site: Site, key: string)
    requires Referred(text, site, key)
    ensures Referred(text + "\n\n" + more, site, key)
  {
    hide Includes, CheckForReferenceText, Reference;
    var whole := text + "\n\n" + more;
    if key in CheckForReferenceText(text) {
      ReferencesStay(text, "\n" + more);
      assert whole == text + "\n" + ("\n" + more);
    } else {
      IncludesLonger("", text, "\n\n" + more, Reference(site, key));
      assert whole == "" + text + ("\n\n" + more);
    }
  }

  lemma AlreadyReferred(text: string, issues: seq<string>, site: Site, m: Found)
    requires m in Visited(text, 0) && m.Found? && m.start <= m.end <= |text| && text[m.start..m.end] in issues
    ensures Referred(Linked(text, issues, site), site, text[m.start..m.end])
  {
    hide CheckForReferenceText, Includes, Reference, Visited, LinksFrom, Join;
    var links, key := LinksFrom(text, issues, site, 0), text[m.start..m.end];
    var reference := Reference(site, key);
    if Wanted(text, issues, site, key) {
      assert IsLinkOf(text, issues, site, m, reference);
      assert LinksOne(text, issues, site, Visited(text, 0), reference);
      LinksExact(text, issues, site, 0, reference);
      AddedIsIncluded(text, links, reference);
    } else if links != [] {
      ReferredLonger(text, Join(links, "\n"), site, key);
    }
  }

  /** The line refers to a valid issue that stands in brackets in the text. */
  ghost predicate RefersToIssue(text: string, issues: seq<string>, site: Site, link: string) {
    exists i: nat, j: nat | i <= j <= |text| ::
      Bracketed(text, i, j) && text[i..j] in issues && link == Reference(site, text[i..j])
  }

  // Main result: the text stays in front; every added line refers to a valid issue that stands in brackets in the text;
  // and every valid issue the loop visits is referred to in the result.
  lemma LinkedText(text: string, issues: seq<string>, site: Site)
    ensures var links, whole := LinksFrom(text, issues, site, 0), Linked(text, issues, site);
            && whole == text + (if links == [] then "" else "\n\n" + Join(links, "\n"))
            && (forall link | link in links :: RefersToIssue(text, issues, site, link))
            && (forall i: nat, j: nat | Found(i, j) in Visited(text, 0) ::
                  i < j < |text| && (text[i..j] in issues ==> Referred(whole, site, text[i..j])))
  {
    hide Bracketed, Reference, CheckForReferenceText, Includes, Visited, Referred, Join, LinksFrom;
    var links, whole := LinksFrom(text, issues, site, 0), Linked(text, issues, site);
    forall i: nat, j: nat | Found(i, j) in Visited(text, 0)
      ensures i < j < |text| && (text[i..j] in issues ==> Referred(whole, site, text[i..j]))
    {
      VisitedAfter(text, 0, Found(i, j));
      BracketedInText(text, i, j);
      if text[i..j] in issues {
        AlreadyReferred(text, issues, site, Found(i, j));
      }
    }
    forall link | link in links
      ensures RefersToIssue(text, issues, site, link)
    {
      LinksExact(text, issues, site, 0, link);
      var m: Found :| m in Visited(text, 0) && IsLinkOf(text, issues, site, m, link);
      VisitedAfter(text, 0, m);
    }
    if links != [] {
      assert text + "\n\n" + Join(links, "\n") == text + ("\n\n" + Join(links, "\n"));
    }
  }

  // So in a text whose bracketed keys are set apart every valid one is referred to in the result.
  lemma AllReferred(text: string, issues: seq<string>, site: Site, i: nat, j: nat)
    requires SetApart(text) && Bracketed(text, i, j) && text[i..j] in issues
    ensures Referred(Linked(text, issues, site), site, text[i..j])
  {
    hide Bracketed, SetApart, Referred, Linked, Visited;
    AllVisitedIff(text);
    LinkedText(text, issues, site);
  }

  lemma BracketedInText(text: string, i: nat, j: nat)
    requires Bracketed(text, i, j)
    ensures i < j < |text|
  {
  }
}
