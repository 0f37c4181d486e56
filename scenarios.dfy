/** Concrete inputs: the two texts of the module's demonstration entry point, a
    near-miss token, and a registry lookup with one known and one unknown document. */
module Scenarios {
  import opened CitationPattern
  import opened Enforcement

  const CitedText: string := "The property was sold on 2025-01-10 [Doc_9845:Page_1:Line_8]."
  const UncitedText: string := "The property was sold in 2025."
  const NearMiss: string := "[Doc_12:Page_3:Line]"
  const TwoCitations: string := "[Doc_1:Page_2:Line_3] and [Doc_4:Page_5:Line_6]"

  /** Positions of the three parts of a concatenation. */
  lemma Pieces(a: string, b: string, c: string)
    ensures (a + b + c)[|a|..|a| + |b|] == b
    ensures forall k :: 0 <= k < |a| ==> (a + b + c)[k] == a[k]
    ensures forall k :: |a| + |b| <= k < |a + b + c| ==> (a + b + c)[k] == c[k - |a| - |b|]
  {
    assert (a + b + c)[|a|..|a| + |b|] == b by {
      forall k | 0 <= k < |b|
        ensures (a + b + c)[|a|..|a| + |b|][k] == b[k]
      {
      }
    }
  }

  /** A token written at `p` is matched there. */
  lemma TokenMatches(s: string, p: nat, t: string)
    requires IsToken(t) && p + |t| <= |s| && s[p..p + |t|] == t
    ensures MatchAt(s, p) == Some(p + |t|)
  {
    var c :| WellFormed(c) && Render(c) == t;
    MatchAtComplete(s, p, p + |t|, c);
  }

  /** From `i`, the scan passes over bracket-free text up to `p` and reports the
      match found there. */
  lemma ScanToken(s: string, i: nat, p: nat, q: nat)
    requires i <= p <= |s| && MatchAt(s, p) == Some(q)
    requires forall k :: i <= k < p ==> s[k] != '['
    ensures MatchesFrom(s, i) == [Span(p, q)] + MatchesFrom(s, q)
  {
    MatchesFromSkip(s, i, p);
  }

  /** From `i`, a scan over bracket-free text reports nothing. */
  lemma ScanNothing(s: string, i: nat)
    requires i <= |s|
    requires forall k :: i <= k < |s| ==> s[k] != '['
    ensures MatchesFrom(s, i) == []
  {
    MatchesFromSkip(s, i, |s|);
  }

  /** `t` holds no `[` at all. */
  lemma NoBracketAnywhere(t: string)
    requires '[' !in t
    ensures forall k :: 0 <= k < |t| ==> t[k] != '['
  {
  }

  /** A text with one match and no other `[` scans as that one match. */
  lemma ScanOneToken(s: string, p: nat, q: nat)
    requires p <= |s| && MatchAt(s, p) == Some(q)
    requires forall k :: 0 <= k < p ==> s[k] != '['
    requires forall k :: q <= k < |s| ==> s[k] != '['
    ensures Spans(s) == [Span(p, q)]
  {
    ScanToken(s, 0, p, q);
    ScanNothing(s, q);
  }

  /** A text holding the token `t` at `p` and no other `[` yields just `t`. */
  lemma OneTokenAt(s: string, p: nat, t: string)
    requires IsToken(t) && p + |t| <= |s| && s[p..p + |t|] == t
    requires forall k :: 0 <= k < p ==> s[k] != '['
    requires forall k :: p + |t| <= k < |s| ==> s[k] != '['
    ensures Extract(s) == [t]
  {
    TokenMatches(s, p, t);
    ScanOneToken(s, p, p + |t|);
  }

  /** Bracket-free prose around one token yields exactly that token. */
  lemma OneTokenText(pre: string, t: string, post: string)
    requires IsToken(t) && '[' !in pre && '[' !in post
    ensures Extract(pre + t + post) == [t]
  {
    var s := pre + t + post;
    var e := |pre| + |t|;
    assert s[|pre|..e] == t by {
      Pieces(pre, t, post);
    }
    assert forall k :: 0 <= k < |pre| ==> s[k] != '[' by {
      Pieces(pre, t, post);
      NoBracketAnywhere(pre);
    }
    assert forall k :: e <= k < |s| ==> s[k] != '[' by {
      Pieces(pre, t, post);
      NoBracketAnywhere(post);
    }
    OneTokenAt(s, |pre|, t);
  }

  /** The cited demonstration text is a token between two bracket-free texts. */
  lemma CitedTextPieces()
    ensures CitedText == "The property was sold on 2025-01-10 " + Render(Citation("9845", "1", "8")) + "."
    ensures Render(Citation("9845", "1", "8")) == "[Doc_9845:Page_1:Line_8]"
    ensures WellFormed(Citation("9845", "1", "8"))
  {
  }

  /** The cited demonstration text is accepted in strict mode with its one citation. */
  lemma CitedTextIsValid(enforcer: CitationEnforcer)
    requires enforcer.strictMode
    ensures enforcer.Validate(CitedText) ==
              ValidationResult(true, 1, ["[Doc_9845:Page_1:Line_8]"], None)
  {
    CitedTextPieces();
    assert IsToken(Render(Citation("9845", "1", "8")));
    OneTokenText("The property was sold on 2025-01-10 ", Render(Citation("9845", "1", "8")), ".");
  }

  /** The uncited demonstration text is rejected in strict mode with the fixed reason. */
  lemma UncitedTextIsRejected(enforcer: CitationEnforcer)
    requires enforcer.strictMode
    ensures enforcer.Validate(UncitedText) ==
              ValidationResult(false, 0, [], Some("No citations found. In strict mode, all claims require sources."))
  {
    assert '[' !in UncitedText;
    ScanNothing(UncitedText, 0);
  }

  /** Without the line number's digits nothing matches: there is no partial match. */
  lemma NearMissYieldsNothing()
    ensures Extract(NearMiss) == []
  {
    var s := NearMiss;
    assert '[' !in s[1..];
    assert forall k :: 1 <= k < |s| ==> s[k] == s[1..][k - 1];
    ScanNothing(s, 1);
  }

  /** A text with a match at its start, one at its end and no `[` in between scans
      as those two matches. */
  lemma ScanTwoTokens(s: string, q: nat, p: nat)
    requires MatchAt(s, 0) == Some(q) && q <= p <= |s| && MatchAt(s, p) == Some(|s|)
    requires forall k :: q <= k < p ==> s[k] != '['
    ensures Spans(s) == [Span(0, q), Span(p, |s|)]
  {
    ScanToken(s, 0, 0, q);
    ScanToken(s, q, p, |s|);
    ScanNothing(s, |s|);
  }

  /** A text starting with the token `t1`, ending with the token `t2` at `p`, with no
      `[` in between, yields just those two. */
  lemma TwoTokensAt(s: string, t1: string, p: nat, t2: string)
    requires IsToken(t1) && IsToken(t2)
    requires |t1| <= p && p + |t2| == |s| && s[0..|t1|] == t1 && s[p..|s|] == t2
    requires forall k :: |t1| <= k < p ==> s[k] != '['
    ensures Extract(s) == [t1, t2]
  {
    TokenMatches(s, 0, t1);
    TokenMatches(s, p, t2);
    ScanTwoTokens(s, |t1|, p);
  }

  /** Two tokens joined by bracket-free text yield exactly those two tokens. */
  lemma TwoTokenText(t1: string, mid: string, t2: string)
    requires IsToken(t1) && IsToken(t2) && '[' !in mid
    ensures Extract(t1 + mid + t2) == [t1, t2]
  {
    var s := t1 + mid + t2;
    var p := |t1| + |mid|;
    assert s[0..|t1|] == t1 && s[p..|s|] == t2 by {
      Pieces(t1, mid, t2);
    }
    assert forall k :: |t1| <= k < p ==> s[k] != '[' by {
      Pieces(t1, mid, t2);
      NoBracketAnywhere(mid);
    }
    TwoTokensAt(s, t1, p, t2);
  }

  /** The first token of TwoCitations, rendered. */
  lemma FirstOfTwoCitations()
    ensures Render(Citation("1", "2", "3")) == "[Doc_1:Page_2:Line_3]"
  {
  }

  /** The second token of TwoCitations, rendered. */
  lemma SecondOfTwoCitations()
    ensures Render(Citation("4", "5", "6")) == "[Doc_4:Page_5:Line_6]"
  {
  }

  /** TwoCitations is two tokens joined by a bracket-free text. */
  lemma TwoCitationsPieces()
    ensures TwoCitations == Render(Citation("1", "2", "3")) + " and " + Render(Citation("4", "5", "6"))
  {
    FirstOfTwoCitations();
    SecondOfTwoCitations();
    assert TwoCitations == "[Doc_1:Page_2:Line_3]" + " and " + "[Doc_4:Page_5:Line_6]";
  }

  /** The count over two citations, one by one. */
  lemma CountVerifiedOfTwo(cites: seq<string>, keys: set<string>)
    requires |cites| == 2
    ensures CountVerified(cites, keys) ==
              (if Known(cites[0], keys) then 1 else 0) + (if Known(cites[1], keys) then 1 else 0)
  {
    assert cites[..1] == [cites[0]];
    assert cites[..1][..0] == [];
  }

  /** With a registry holding only document "1", one citation is verified and one invalid. */
  lemma TwoCitationsOneKnown()
    ensures |Extract(TwoCitations)| == 2
    ensures CountVerified(Extract(TwoCitations), {"1"}) == 1
  {
    var c1, c2 := Citation("1", "2", "3"), Citation("4", "5", "6");
    assert WellFormed(c1) && WellFormed(c2);
    assert IsToken(Render(c1)) && IsToken(Render(c2));
    TwoCitationsPieces();
    TwoTokenText(Render(c1), " and ", Render(c2));
    DocIdOfRender(c1);
    DocIdOfRender(c2);
    CountVerifiedOfTwo(Extract(TwoCitations), {"1"});
  }

  /** `enforce` on TwoCitations with a registry holding only document "1". */
  method EnforceTwoCitations(enforcer: CitationEnforcer) returns (r: EnforcementResult)
    ensures r == EnforcementResult(TwoCitations, 1, 1, 2)
  {
    TwoCitationsOneKnown();
    r := enforcer.Enforce(TwoCitations, Some({"1"}));
  }
}
