/** The textual form of an installation identifier (src/github/client/installation-id.ts). */
module InstallationId {
  import opened Wrappers
  import Decimal

  datatype InstallationId = InstallationId(githubBaseUrl: string, appId: nat, installationId: nat)
  {
    function ToString(): string {
      githubBaseUrl + HASHES + Decimal.Print(appId) + HASHES + Decimal.Print(installationId)
    }
  }

  const HASHES := "###"

  /** What `.` does not match. */
  predicate IsLineBreak(c: char) {
    c == '\n' || c == '\r' || c == '\U{2028}' || c == '\U{2029}'
  }

  /** `.+` */
  predicate IsBaseUrl(s: string) {
    s != "" && forall i :: 0 <= i < |s| ==> !IsLineBreak(s[i])
  }

  /** `[0-9]+` */
  predicate IsNumber(s: string) {
    s != "" && Decimal.AllDigits(s)
  }

  /** The start of the longest run of digits that ends at `end`. */
  function DigitsStart(s: string, end: nat): (i: nat)
    requires end <= |s|
    ensures i <= end && Decimal.AllDigits(s[i..end]) && (i > 0 ==> !Decimal.IsDigit(s[i - 1]))
  {
    if end > 0 && Decimal.IsDigit(s[end - 1]) then
      var i := DigitsStart(s, end - 1);
      assert s[i..end] == s[i..end - 1] + [s[end - 1]];
      i
    else end
  }

  /** `###[0-9]+` in front of `end`: the start of the number, or nothing. */
  function NumberBefore(s: string, end: nat): (r: Option<nat>)
    requires end <= |s|
    ensures r.Some? ==> 3 <= r.value < end && s[r.value - 3..r.value] == HASHES && IsNumber(s[r.value..end])
  {
    var i := DigitsStart(s, end);
    if i < end && i >= 3 && s[i - 3..i] == HASHES then Some(i) else None
  }

  /** The error is the text that could not be read. */
  function FromString(text: string): Result<InstallationId, string> {
    match NumberBefore(text, |text|)
    case None => Failure(text)
    case Some(i) =>
      match NumberBefore(text, i - 3)
      case None => Failure(text)
      case Some(j) =>
        if IsBaseUrl(text[..j - 3])
        then Success(InstallationId(text[..j - 3], Decimal.Value(text[j..i - 3]), Decimal.Value(text[i..])))
        else Failure(text)
  }

  /** The regular expression: the three groups of a match. */
  predicate Matches(text: string, baseUrl: string, appId: string, installationId: string) {
    && text == baseUrl + HASHES + appId + HASHES + installationId
    && IsBaseUrl(baseUrl) && IsNumber(appId) && IsNumber(installationId)
  }

  lemma {:induction false} DigitsStartAt(s: string, i: nat, end: nat)
    requires i <= end <= |s| && Decimal.AllDigits(s[i..end]) && (i > 0 ==> !Decimal.IsDigit(s[i - 1]))
    ensures DigitsStart(s, end) == i
    decreases end
  {
    if i < end {
      assert s[end - 1] == s[i..end][end - 1 - i];
      assert s[i..end - 1] == s[i..end][..end - 1 - i];
      DigitsStartAt(s, i, end - 1);
    }
  }

  lemma NumberFound(s: string, front: string, number: string, rest: string)
    requires s == front + HASHES + number + rest && IsNumber(number)
    ensures NumberBefore(s, |front| + 3 + |number|) == Some(|front| + 3)
  {
    var i := |front| + 3;
    assert s[i..i + |number|] == number;
    assert s[i - 3..i] == HASHES;
    assert s[i - 1] == '#';
    DigitsStartAt(s, i, i + |number|);
  }

  // The scanner accepts exactly what the expression matches, and there is one match at most.
  lemma MatchIsFound(text: string, baseUrl: string, appId: string, installationId: string)
    requires Matches(text, baseUrl, appId, installationId)
    ensures FromString(text) ==
            Success(InstallationId(baseUrl, Decimal.Value(appId), Decimal.Value(installationId)))
  {
    hide NumberBefore, IsNumber, FromString;
    var front := baseUrl + HASHES + appId;
    var i, j := |front| + 3, |baseUrl| + 3;
    assert NumberBefore(text, |text|) == Some(i) by {
      assert text == front + HASHES + installationId + "";
      NumberFound(text, front, installationId, "");
    }
    assert NumberBefore(text, i - 3) == Some(j) by {
      assert text == baseUrl + HASHES + appId + (HASHES + installationId);
      NumberFound(text, baseUrl, appId, HASHES + installationId);
    }
    PartsAt(baseUrl, appId, installationId);
    FromParts(text, i, j);
  }

  lemma FromParts(text: string, i: nat, j: nat)
    requires NumberBefore(text, |text|) == Some(i) && NumberBefore(text, i - 3) == Some(j) && IsBaseUrl(text[..j - 3])
    ensures IsNumber(text[j..i - 3]) && IsNumber(text[i..])
    ensures FromString(text) == Success(InstallationId(text[..j - 3], Decimal.Value(text[j..i - 3]),
        Decimal.Value(text[i..])))
  {
    hide DigitsStart;
    assert text[i..|text|] == text[i..];
  }

  lemma PartsAt(baseUrl: string, appId: string, installationId: string)
    ensures var text, j := baseUrl + HASHES + appId + HASHES + installationId, |baseUrl| + 3;
            var i := j + |appId| + 3;
            text[..j - 3] == baseUrl && text[j..i - 3] == appId && text[i..] == installationId
  {
  }

  lemma AcceptedMatches(text: string)
    requires FromString(text).Success?
    ensures var id := FromString(text).value;
            exists a, i :: Matches(text, id.githubBaseUrl, a, i)
                           && id.appId == Decimal.Value(a) && id.installationId == Decimal.Value(i)
  {
    hide NumberBefore, IsNumber, IsBaseUrl;
    var i := NumberBefore(text, |text|).value;
    var j := NumberBefore(text, i - 3).value;
    assert text[i..|text|] == text[i..];
    Pieces(text, i, j);
    assert Matches(text, text[..j - 3], text[j..i - 3], text[i..]);
  }

  // Main result: a text is accepted exactly if it has the form of three parts, and the parts are what is returned.
  lemma FromStringExact(text: string)
    ensures match FromString(text)
            case Failure(_) => forall b, a, i :: !Matches(text, b, a, i)
            case Success(id) => exists a, i ::
              Matches(text, id.githubBaseUrl, a, i) && id.appId == Decimal.Value(a)
                  && id.installationId == Decimal.Value(i)
  {
    hide Matches, FromString;
    if FromString(text).Success? {
      AcceptedMatches(text);
    } else {
      forall b, a, i
        ensures !Matches(text, b, a, i)
      {
        if Matches(text, b, a, i) {
          MatchIsFound(text, b, a, i);
        }
      }
    }
  }

  lemma Pieces(text: string, i: nat, j: nat)
    requires 3 <= j <= i - 3 && i <= |text| && text[i - 3..i] == HASHES && text[j - 3..j] == HASHES
    ensures text == text[..j - 3] + HASHES + text[j..i - 3] + HASHES + text[i..]
  {
    assert text == text[..j - 3] + text[j - 3..j] + text[j..i - 3] + text[i - 3..i] + text[i..];
  }

  // Main result: reading undoes printing exactly for the base URLs that are not empty and hold no line break, even
  // those that hold the separator.
  lemma FromStringOfToString(id: InstallationId)
    ensures FromString(id.ToString()) == Success(id) <==> IsBaseUrl(id.githubBaseUrl)
  {
    Decimal.ValueOfPrint(id.appId);
    Decimal.ValueOfPrint(id.installationId);
    if IsBaseUrl(id.githubBaseUrl) {
      MatchIsFound(id.ToString(), id.githubBaseUrl, Decimal.Print(id.appId), Decimal.Print(id.installationId));
    } else if FromString(id.ToString()) == Success(id) {
      FromStringExact(id.ToString());
    }
  }
}
