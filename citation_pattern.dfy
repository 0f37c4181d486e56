/** The citation token `[Doc_<digits>:Page_<digits>:Line_<digits>]` and the two
    regular-expression operations the enforcer applies to text: `re.findall` of the
    token pattern (a left-to-right scan for non-overlapping tokens) and
    `re.search(r'Doc_(\d+)', token)` (the document identifier of a token).
    Both are written out by hand for this one fixed pattern. */
module CitationPattern {

  datatype Option<T> = None | Some(value: T)

  /** `\d`, restricted to the ASCII decimal digits. */
  predicate IsDigit(ch: char) {
    '0' <= ch <= '9'
  }

  /** What `\d+` matches: one or more digits. */
  predicate IsNumeral(s: string) {
    |s| > 0 && forall k :: 0 <= k < |s| ==> IsDigit(s[k])
  }

  /** The three digit runs of a token, kept as text: "007" and "7" are different identifiers. */
  datatype Citation = Citation(doc: string, page: string, line: string)

  predicate WellFormed(c: Citation) {
    IsNumeral(c.doc) && IsNumeral(c.page) && IsNumeral(c.line)
  }

  /** The token text of a citation, literal for literal. */
  function Render(c: Citation): string {
    "[Doc_" + c.doc + ":Page_" + c.page + ":Line_" + c.line + "]"
  }

  /** Declarative reading of the pattern: the whole of `t` is one token. */
  ghost predicate IsToken(t: string) {
    exists c :: WellFormed(c) && Render(c) == t
  }

  /** The literal `lit` occurs in `s` starting at position `i`. */
  predicate HasAt(s: string, i: nat, lit: string) {
    i + |lit| <= |s| && s[i..i + |lit|] == lit
  }

  /** End of the longest run of digits starting at `i` (greedy `\d*`). */
  function DigitsEnd(s: string, i: nat): (e: nat)
    requires i <= |s|
    ensures i <= e <= |s|
    ensures forall k :: i <= k < e ==> IsDigit(s[k])
    ensures e == |s| || !IsDigit(s[e])
    decreases |s| - i
  {
    if i < |s| && IsDigit(s[i]) then DigitsEnd(s, i + 1) else i
  }

  /** Any digit run ending at a non-digit (or at the end of `s`) is the greedy one. */
  lemma DigitsEndUnique(s: string, i: nat, e: nat)
    requires i <= e <= |s|
    requires forall k :: i <= k < e ==> IsDigit(s[k])
    requires e == |s| || !IsDigit(s[e])
    ensures DigitsEnd(s, i) == e
  {
  }

  /** Where the literals and digit runs of a rendered token lie. */
  lemma RenderParts(c: Citation)
    ensures var t := Render(c);
            var docEnd := 5 + |c.doc|;
            var pageEnd := docEnd + 6 + |c.page|;
            var lineEnd := pageEnd + 6 + |c.line|;
            |t| == lineEnd + 1 && t[..5] == "[Doc_" && t[5..docEnd] == c.doc &&
            t[docEnd..docEnd + 6] == ":Page_" && t[docEnd + 6..pageEnd] == c.page &&
            t[pageEnd..pageEnd + 6] == ":Line_" && t[pageEnd + 6..lineEnd] == c.line &&
            t[lineEnd] == ']'
  {
  }

  /** A slice of a slice is a slice of the original. */
  lemma SliceOfSlice(s: string, i: nat, j: nat, a: nat, b: nat)
    requires i <= j <= |s| && a <= b <= j - i
    ensures s[i..j][a..b] == s[i + a..i + b]
  {
    forall k | 0 <= k < b - a
      ensures s[i..j][a..b][k] == s[i + a..i + b][k]
    {
    }
  }

  /** Adjacent slices join. */
  lemma JoinSlices(s: string, a: nat, b: nat, c: nat)
    requires a <= b <= c <= |s|
    ensures s[a..b] + s[b..c] == s[a..c]
  {
  }

  /** An attempt to match the token pattern at position `i` of `s`: the end of the
      match, or None. Each `\d+` is greedy; it is followed by a literal that is not
      a digit, so backtracking never finds another match. */
  function MatchAt(s: string, i: nat): (r: Option<nat>)
    requires i <= |s|
    ensures r.Some? ==> i + 21 <= r.value <= |s| && s[i] == '['
  {
    if !HasAt(s, i, "[Doc_") then None
    else
      assert s[i] == s[i..i + 5][0];
      var docEnd := DigitsEnd(s, i + 5);
      if docEnd == i + 5 || !HasAt(s, docEnd, ":Page_") then None
      else
        var pageEnd := DigitsEnd(s, docEnd + 6);
        if pageEnd == docEnd + 6 || !HasAt(s, pageEnd, ":Line_") then None
        else
          var lineEnd := DigitsEnd(s, pageEnd + 6);
          if lineEnd == pageEnd + 6 || !HasAt(s, lineEnd, "]") then None
          else Some(lineEnd + 1)
  }

  /** A numeral found as a slice of `s` puts a digit at each of its positions. */
  lemma NumeralSlice(s: string, a: nat, b: nat)
    requires a <= b <= |s| && IsNumeral(s[a..b])
    ensures forall k :: a <= k < b ==> IsDigit(s[k])
  {
    forall k | a <= k < b
      ensures IsDigit(s[k])
    {
      assert s[k] == s[a..b][k - a];
    }
  }

  /** Literals and digit runs laid out in the token's order make a rendered token. */
  lemma TokenFromParts(s: string, i: nat, docEnd: nat, pageEnd: nat, lineEnd: nat)
    requires i + 5 <= docEnd && docEnd + 6 <= pageEnd && pageEnd + 6 <= lineEnd < |s|
    requires s[i..i + 5] == "[Doc_" && s[docEnd..docEnd + 6] == ":Page_"
    requires s[pageEnd..pageEnd + 6] == ":Line_" && s[lineEnd] == ']'
    ensures s[i..lineEnd + 1] ==
              Render(Citation(s[i + 5..docEnd], s[docEnd + 6..pageEnd], s[pageEnd + 6..lineEnd]))
  {
    assert s[lineEnd..lineEnd + 1] == "]";
    JoinSlices(s, i, i + 5, docEnd);
    JoinSlices(s, i, docEnd, docEnd + 6);
    JoinSlices(s, i, docEnd + 6, pageEnd);
    JoinSlices(s, i, pageEnd, pageEnd + 6);
    JoinSlices(s, i, pageEnd + 6, lineEnd);
    JoinSlices(s, i, lineEnd, lineEnd + 1);
  }

  /** A successful match covers exactly one token. */
  lemma MatchAtSound(s: string, i: nat)
    requires i <= |s| && MatchAt(s, i).Some?
    ensures IsToken(s[i..MatchAt(s, i).value])
  {
    var j := MatchAt(s, i).value;
    var docEnd := DigitsEnd(s, i + 5);
    var pageEnd := DigitsEnd(s, docEnd + 6);
    var lineEnd := DigitsEnd(s, pageEnd + 6);
    var c := Citation(s[i + 5..docEnd], s[docEnd + 6..pageEnd], s[pageEnd + 6..lineEnd]);
    assert WellFormed(c);
    assert s[lineEnd] == s[lineEnd..lineEnd + 1][0];
    TokenFromParts(s, i, docEnd, pageEnd, lineEnd);
  }

  /** Where the literals and digit runs of a token lie, read in the text that holds it. */
  lemma TokenPartsAt(s: string, i: nat, j: nat, c: Citation)
    requires i <= j <= |s| && Render(c) == s[i..j]
    ensures var docEnd := i + 5 + |c.doc|;
            var pageEnd := docEnd + 6 + |c.page|;
            var lineEnd := pageEnd + 6 + |c.line|;
            j == lineEnd + 1 && s[i..i + 5] == "[Doc_" && s[i + 5..docEnd] == c.doc &&
            s[docEnd..docEnd + 6] == ":Page_" && s[docEnd + 6..pageEnd] == c.page &&
            s[pageEnd..pageEnd + 6] == ":Line_" && s[pageEnd + 6..lineEnd] == c.line &&
            s[lineEnd] == ']'
  {
    var docEnd := i + 5 + |c.doc|;
    var pageEnd := docEnd + 6 + |c.page|;
    var lineEnd := pageEnd + 6 + |c.line|;
    RenderParts(c);
    SliceOfSlice(s, i, j, 0, 5);
    SliceOfSlice(s, i, j, 5, docEnd - i);
    SliceOfSlice(s, i, j, docEnd - i, docEnd - i + 6);
    SliceOfSlice(s, i, j, docEnd - i + 6, pageEnd - i);
    SliceOfSlice(s, i, j, pageEnd - i, pageEnd - i + 6);
    SliceOfSlice(s, i, j, pageEnd - i + 6, lineEnd - i);
    assert s[i..j][lineEnd - i] == s[lineEnd];
  }

  /** A digit run at `a..e` followed by a literal that starts with a non-digit is
      what the greedy `\d+` at `a` consumes. */
  lemma RunBeforeLiteral(s: string, a: nat, e: nat, lit: string)
    requires a <= e <= |s| && IsNumeral(s[a..e]) && HasAt(s, e, lit)
    requires |lit| > 0 && !IsDigit(lit[0])
    ensures a < e && DigitsEnd(s, a) == e
  {
    NumeralSlice(s, a, e);
    assert s[e] == s[e..e + |lit|][0];
    DigitsEndUnique(s, a, e);
  }

  /** Every token occurrence in `s` is found by a match attempt at its first position. */
  lemma MatchAtComplete(s: string, i: nat, j: nat, c: Citation)
    requires i <= j <= |s| && WellFormed(c) && Render(c) == s[i..j]
    ensures MatchAt(s, i) == Some(j)
  {
    var docEnd := i + 5 + |c.doc|;
    var pageEnd := docEnd + 6 + |c.page|;
    var lineEnd := pageEnd + 6 + |c.line|;
    TokenPartsAt(s, i, j, c);
    assert HasAt(s, i, "[Doc_");
    assert HasAt(s, lineEnd, "]") by {
      assert s[lineEnd..lineEnd + 1] == [s[lineEnd]];
    }
    RunBeforeLiteral(s, i + 5, docEnd, ":Page_");
    RunBeforeLiteral(s, docEnd + 6, pageEnd, ":Line_");
    RunBeforeLiteral(s, pageEnd + 6, lineEnd, "]");
  }

  /** A match at `i` holds no `[` after its first character, so no other token can
      begin inside it: the scan below can never skip over a token. */
  lemma MatchHasNoInnerBracket(s: string, i: nat, p: nat)
    requires i <= |s| && MatchAt(s, i).Some?
    requires i < p < MatchAt(s, i).value
    ensures s[p] != '['
  {
    var docEnd := DigitsEnd(s, i + 5);
    var pageEnd := DigitsEnd(s, docEnd + 6);
    var lineEnd := DigitsEnd(s, pageEnd + 6);
    if p < i + 5 {
      assert s[p] == s[i..i + 5][p - i];
    } else if p < docEnd {
      assert IsDigit(s[p]);
    } else if p < docEnd + 6 {
      assert s[p] == s[docEnd..docEnd + 6][p - docEnd];
    } else if p < pageEnd {
      assert IsDigit(s[p]);
    } else if p < pageEnd + 6 {
      assert s[p] == s[pageEnd..pageEnd + 6][p - pageEnd];
    } else if p < lineEnd {
      assert IsDigit(s[p]);
    } else {
      assert s[p] == s[lineEnd..lineEnd + 1][0];
    }
  }

  /** Position of one match in the scanned text: `s[start..end]`. */
  datatype Span = Span(start: nat, end: nat)

  /** The scan `re.findall` performs from position `i`: try a match at the current
      position; on success record it and continue after it, otherwise advance by one. */
  function MatchesFrom(s: string, i: nat): (r: seq<Span>)
    requires i <= |s|
    ensures forall k :: 0 <= k < |r| ==> i <= r[k].start < r[k].end <= |s|
    ensures forall k :: 0 <= k < |r| - 1 ==> r[k].end <= r[k + 1].start
    decreases |s| - i
  {
    if i == |s| then []
    else
      match MatchAt(s, i)
      case Some(j) => [Span(i, j)] + MatchesFrom(s, j)
      case None => MatchesFrom(s, i + 1)
  }

  /** Every span the scan reports is a successful match. */
  lemma {:induction false} MatchesFromSound(s: string, i: nat, k: nat)
    requires i <= |s| && k < |MatchesFrom(s, i)|
    ensures MatchAt(s, MatchesFrom(s, i)[k].start) == Some(MatchesFrom(s, i)[k].end)
    decreases |s| - i
  {
    match MatchAt(s, i)
    case Some(j) =>
      if k > 0 {
        MatchesFromSound(s, j, k - 1);
      }
    case None =>
      MatchesFromSound(s, i + 1, k);
  }

  /** The scan finds every position at which a match succeeds. */
  lemma {:induction false} MatchesFromComplete(s: string, i: nat, p: nat)
    requires i <= p <= |s| && MatchAt(s, p).Some?
    ensures Span(p, MatchAt(s, p).value) in MatchesFrom(s, i)
    decreases |s| - i
  {
    if p > i {
      match MatchAt(s, i)
      case Some(j) =>
        if p < j {
          MatchHasNoInnerBracket(s, i, p);
        }
        MatchesFromComplete(s, j, p);
      case None =>
        MatchesFromComplete(s, i + 1, p);
    }
  }

  /** The match positions of the whole text. */
  function Spans(s: string): seq<Span> {
    MatchesFrom(s, 0)
  }

  /** `re.findall(CITATION_PATTERN, s)`: the matched substrings, in order. */
  function Extract(s: string): seq<string> {
    var spans := Spans(s);
    seq(|spans|, k requires 0 <= k < |spans| => s[spans[k].start..spans[k].end])
  }

  /** Every extracted string is a token, and it is the substring of `s` at its span. */
  lemma ExtractedIsToken(s: string, k: nat)
    requires k < |Extract(s)|
    ensures |Extract(s)| == |Spans(s)|
    ensures Spans(s)[k].start < Spans(s)[k].end <= |s|
    ensures Extract(s)[k] == s[Spans(s)[k].start..Spans(s)[k].end]
    ensures IsToken(Extract(s)[k])
  {
    MatchesFromSound(s, 0, k);
    MatchAtSound(s, Spans(s)[k].start);
  }

  /** All extracted strings are tokens. */
  lemma AllExtractedAreTokens(s: string)
    ensures forall k :: 0 <= k < |Extract(s)| ==> IsToken(Extract(s)[k])
  {
    forall k | 0 <= k < |Extract(s)|
      ensures IsToken(Extract(s)[k])
    {
      ExtractedIsToken(s, k);
    }
  }

  /** The spans are exactly the token occurrences of `s`: a substring of `s` is a
      token if and only if the scan reports it. */
  lemma TokenIffExtracted(s: string, p: nat, q: nat)
    requires p <= q <= |s|
    ensures IsToken(s[p..q]) <==> Span(p, q) in Spans(s)
  {
    if IsToken(s[p..q]) {
      var c :| WellFormed(c) && Render(c) == s[p..q];
      MatchAtComplete(s, p, q, c);
      MatchesFromComplete(s, 0, p);
    }
    if Span(p, q) in Spans(s) {
      var k :| 0 <= k < |Spans(s)| && Spans(s)[k] == Span(p, q);
      MatchesFromSound(s, 0, k);
      MatchAtSound(s, p);
    }
  }

  /** The scan from `i` skips every position before `p` when none of them holds `[`. */
  lemma {:induction false} MatchesFromSkip(s: string, i: nat, p: nat)
    requires i <= p <= |s|
    requires forall k :: i <= k < p ==> s[k] != '['
    ensures MatchesFrom(s, i) == MatchesFrom(s, p)
    decreases p - i
  {
    if i < p {
      MatchesFromSkip(s, i + 1, p);
    }
  }

  /** `re.search(r'Doc_(\d+)', t).group(1)` looked for from position `p`: the digit
      run after the leftmost `Doc_` that is followed by at least one digit. */
  function SearchDocFrom(t: string, p: nat): (r: Option<string>)
    requires p <= |t|
    ensures r.Some? ==> IsNumeral(r.value)
    decreases |t| - p
  {
    if p == |t| then None
    else if HasAt(t, p, "Doc_") && DigitsEnd(t, p + 4) > p + 4 then Some(t[p + 4..DigitsEnd(t, p + 4)])
    else SearchDocFrom(t, p + 1)
  }

  /** The document identifier `enforce` reads from a citation, or None when `Doc_`
      followed by a digit does not occur in it. */
  function DocId(t: string): Option<string> {
    SearchDocFrom(t, 0)
  }

  /** The search reads back the document identifier of every token. */
  lemma DocIdOfRender(c: Citation)
    requires WellFormed(c)
    ensures DocId(Render(c)) == Some(c.doc)
  {
    var t := Render(c);
    var docEnd := 5 + |c.doc|;
    RenderParts(c);
    assert !HasAt(t, 0, "Doc_") by {
      assert t[0] == t[..5][0] == '[';
    }
    assert HasAt(t, 1, "Doc_") by {
      assert t[1..5] == t[..5][1..];
    }
    assert t[docEnd] == t[docEnd..docEnd + 6][0] == ':';
    NumeralSlice(t, 5, docEnd);
    DigitsEndUnique(t, 5, docEnd);
    assert SearchDocFrom(t, 1) == Some(c.doc);
  }

  /** So every extracted token has a document identifier: the source's "no match"
      branch is unreachable for them. */
  lemma DocIdOfToken(t: string)
    requires IsToken(t)
    ensures DocId(t).Some?
    ensures exists c :: WellFormed(c) && Render(c) == t && DocId(t) == Some(c.doc)
  {
    var c :| WellFormed(c) && Render(c) == t;
    DocIdOfRender(c);
  }
}
