/**
 * The page-counter cursor (src/sync/page-counter-cursor.ts): a page number that knows the page size it was counted
 * with, so that a cursor stored under one page size can be rescaled to another.
 */
module PageCounterCursor {
  import opened Wrappers
  import opened Text
  import Decimal

  const LEGACY_PAGE_SIZE := 20

  /** The two fields of a cursor. Pages are numbered from 1. */
  datatype Cursor = Cursor(perPage: nat, pageNo: nat) {
    predicate Valid() {
      perPage >= 1 && pageNo >= 1
    }

    /** How many items lie before the page the cursor points to. */
    function Position(): nat
      requires Valid()
    {
      (pageNo - 1) * perPage
    }
  }

  // ---- Text form -------------------------------------------------------------------------------------------------

  const PER_PAGE_KEY := "{\"perPage\":"
  const PAGE_NO_KEY := ",\"pageNo\":"

  function Print(c: Cursor): string {
    PER_PAGE_KEY + Decimal.Print(c.perPage) + PAGE_NO_KEY + Decimal.Print(c.pageNo) + "}"
  }

  function ParseObject(s: string): Result<Cursor, string> {
    if !HasAt(s, 0, PER_PAGE_KEY) then Failure("SyntaxError")
    else
      var i := |PER_PAGE_KEY|;
      var j := Decimal.DigitsEnd(s, i);
      if j == i || !HasAt(s, j, PAGE_NO_KEY) then Failure("SyntaxError")
      else
        var k := j + |PAGE_NO_KEY|;
        var l := Decimal.DigitsEnd(s, k);
        if l == k || s[l..] != "}" then Failure("SyntaxError")
        else Success(Cursor(Decimal.Value(s[i..j]), Decimal.Value(s[k..l])))
  }

  /** What the constructor reads: nothing, a legacy page number, or a serialised cursor. */
  function Parse(text: Option<string>): Result<Cursor, string> {
    if text.None? || text.value == "" then Success(Cursor(LEGACY_PAGE_SIZE, 1))
    else if Decimal.AllDigits(text.value) && Decimal.Value(text.value) != 0 then
      Success(Cursor(LEGACY_PAGE_SIZE, Decimal.Value(text.value)))
    else ParseObject(text.value)
  }

  // A stored cursor comes back as it was.
  lemma SerialiseRoundTrip(c: Cursor)
    ensures Parse(Some(Print(c))) == Success(c)
  {
    var a, b := Decimal.Print(c.perPage), Decimal.Print(c.pageNo);
    var s := Print(c);
    var i := |PER_PAGE_KEY|;
    var j := i + |a|;
    var k := j + |PAGE_NO_KEY|;
    var l := k + |b|;
    assert s[0] == '{';
    assert s[0..i] == PER_PAGE_KEY;
    assert s[i..j] == a;
    assert s[j..k] == PAGE_NO_KEY;
    assert s[k..l] == b;
    assert s[l..] == "}";
    assert s[j] == PAGE_NO_KEY[0] && s[l] == '}';
    Decimal.DigitsEndAt(s, i, j);
    Decimal.DigitsEndAt(s, k, l);
    Decimal.ValueOfPrint(c.perPage);
    Decimal.ValueOfPrint(c.pageNo);
  }

  // ---- Scaling ---------------------------------------------------------------------------------------------------

  function Scaled(c: Cursor, newPerPage: nat): (r: Cursor)
    requires c.Valid() && newPerPage >= 1
    ensures r.Valid()
  {
    if c.perPage == newPerPage then c
    else Cursor(newPerPage, c.Position() / newPerPage + 1)
  }

  // Rescaling goes back to the last page boundary that is not past the old position: it re-reads less than one page
  // and never jumps over an unread item.
  lemma ScaleNeverSkips(c: Cursor, newPerPage: nat)
    requires c.Valid() && newPerPage >= 1
    ensures var r := Scaled(c, newPerPage);
            r.perPage == newPerPage && r.Position() <= c.Position() < r.Position() + newPerPage
  {
    var q := c.Position() / newPerPage;
    assert c.Position() == q * newPerPage + c.Position() % newPerPage;
  }

  // The rescaled page is the only one with that property, so `Scaled` is pinned down by it.
  lemma ScaleIsUnique(c: Cursor, r: Cursor)
    requires c.Valid() && r.Valid()
    requires r.Position() <= c.Position() < r.Position() + r.perPage
    ensures Scaled(c, r.perPage) == r
  {
    var s := Scaled(c, r.perPage);
    ScaleNeverSkips(c, r.perPage);
    if s.pageNo < r.pageNo {
      PagesApart(s.pageNo, r.pageNo, r.perPage);
    } else if r.pageNo < s.pageNo {
      PagesApart(r.pageNo, s.pageNo, r.perPage);
    }
  }

  lemma PagesApart(a: nat, b: nat, perPage: nat)
    requires a < b
    ensures (a - 1) * perPage + perPage <= (b - 1) * perPage
  {
    var gap: nat := b - a - 1;
    calc {
      (b - 1) * perPage;
      ((a - 1) + 1 + gap) * perPage;
      (a - 1) * perPage + perPage + gap * perPage;
    }
  }

  // ---- The class -------------------------------------------------------------------------------------------------

  class PageSizeAwareCounterCursor {
    var perPage: nat
    var pageNo: nat

    function Value(): Cursor
      reads this
    {
      Cursor(perPage, pageNo)
    }

    constructor (c: Cursor)
      ensures Value() == c
    {
      perPage := c.perPage;
      pageNo := c.pageNo;
    }

    /** The source's constructor; it throws where the text is neither a number nor a serialised cursor. */
    static method FromText(text: Option<string>) returns (r: Result<PageSizeAwareCounterCursor, string>)
      ensures r.Success? <==> Parse(text).Success?
      ensures r.Success? ==> fresh(r.value) && r.value.Value() == Parse(text).value
    {
      var isEmpty := text.None? || text.value == "";
      if isEmpty || (Decimal.AllDigits(text.value) && Decimal.Value(text.value) != 0) {
        var no := if isEmpty then 1 else Decimal.Value(text.value);
        var cursor := new PageSizeAwareCounterCursor(Cursor(LEGACY_PAGE_SIZE, no));
        return Success(cursor);
      }
      var parsed := ParseObject(text.value);
      if parsed.Failure? {
        return Failure(parsed.error);
      }
      var cursor := new PageSizeAwareCounterCursor(parsed.value);
      return Success(cursor);
    }

    method Scale(newPerPage: nat)
      requires Value().Valid() && newPerPage >= 1
      modifies this
      ensures Value() == Scaled(old(Value()), newPerPage)
    {
      if perPage == newPerPage {
        return;
      }
      var processedItems := (pageNo - 1) * perPage;
      var fullyProcessedScaledPages := processedItems / newPerPage;
      perPage := newPerPage;
      pageNo := fullyProcessedScaledPages + 1;
    }

    method CopyWithPageNo(pageNo: nat) returns (copy: PageSizeAwareCounterCursor)
      ensures fresh(copy) && copy.Value() == Cursor(this.perPage, pageNo)
    {
      copy := new PageSizeAwareCounterCursor(Cursor(this.perPage, pageNo));
    }

    method Serialise() returns (text: string)
      ensures Parse(Some(text)) == Success(Value())
    {
      text := Print(Value());
      SerialiseRoundTrip(Value());
    }
  }
}
