/** The `CitationEnforcer` post-processor: it extracts citation tokens from text,
    decides whether the text complies with the citation policy, and counts how many
    of its citations name a known source document. */
module Enforcement {
  import opened CitationPattern

  /** The one reason `validate` ever gives for rejecting a text. */
  const NoCitationsReason: string := "No citations found. In strict mode, all claims require sources."

  /** What `validate` returns; `reason` is present only when `valid` is false. */
  datatype ValidationResult = ValidationResult(
    valid: bool,
    citationCount: nat,
    citations: seq<string>,
    reason: Option<string>)

  /** What `enforce` returns. */
  datatype EnforcementResult = EnforcementResult(
    text: string,
    citationsVerified: nat,
    citationsInvalid: nat,
    totalCitations: nat)

  /** The test `if source_docs:` applies to the optional registry, given as its set
      of keys: an absent registry and an empty one are both false. */
  predicate Truthy(sourceDocs: Option<set<string>>) {
    sourceDocs.Some? && sourceDocs.value != {}
  }

  /** A citation counts as verified when its document identifier is a registry key. */
  predicate Known(citation: string, keys: set<string>) {
    DocId(citation).Some? && DocId(citation).value in keys
  }

  /** The number of Known citations, counted prefix by prefix as `enforce`'s loop does. */
  function CountVerified(citations: seq<string>, keys: set<string>): (n: nat)
    ensures n <= |citations|
  {
    if citations == [] then 0
    else
      var last := |citations| - 1;
      CountVerified(citations[..last], keys) + (if Known(citations[last], keys) then 1 else 0)
  }

  /** The positions of the Known citations: an independent reading of CountVerified. */
  ghost function VerifiedPositions(citations: seq<string>, keys: set<string>): set<nat> {
    set k: nat | k < |citations| && Known(citations[k], keys)
  }

  /** The counter `enforce` keeps is the number of positions holding a Known citation. */
  lemma {:induction false} CountVerifiedIsPositions(citations: seq<string>, keys: set<string>)
    ensures CountVerified(citations, keys) == |VerifiedPositions(citations, keys)|
  {
    if citations != [] {
      var last := |citations| - 1;
      var front := citations[..last];
      CountVerifiedIsPositions(front, keys);
      if Known(citations[last], keys) {
        assert VerifiedPositions(citations, keys) == VerifiedPositions(front, keys) + {last};
      } else {
        assert VerifiedPositions(citations, keys) == VerifiedPositions(front, keys);
      }
    }
  }

  /** An extracted citation counts as verified exactly when the digit run after its
      `Doc_` is a registry key. */
  lemma ExtractedKnownIff(s: string, k: nat, keys: set<string>)
    requires k < |Extract(s)|
    ensures exists c :: WellFormed(c) && Render(c) == Extract(s)[k] &&
                        (Known(Extract(s)[k], keys) <==> c.doc in keys)
  {
    ExtractedIsToken(s, k);
    DocIdOfToken(Extract(s)[k]);
  }

  /** `t` renders a citation whose document identifier is one of `keys`. */
  ghost predicate CitesKnownDoc(t: string, keys: set<string>) {
    exists c :: WellFormed(c) && Render(c) == t && c.doc in keys
  }

  /** The verified count over the extracted citations is the number of citations
      `[Doc_D:Page_P:Line_L]` of the text whose D is a registry key. */
  lemma VerifiedCountByDocKey(s: string, keys: set<string>)
    ensures CountVerified(Extract(s), keys) ==
              |set k: nat | k < |Extract(s)| && CitesKnownDoc(Extract(s)[k], keys)|
  {
    var cites := Extract(s);
    CountVerifiedIsPositions(cites, keys);
    forall k: nat | k < |cites|
      ensures Known(cites[k], keys) <==> CitesKnownDoc(cites[k], keys)
    {
      ExtractedKnownIff(s, k, keys);
      if CitesKnownDoc(cites[k], keys) {
        var c :| WellFormed(c) && Render(c) == cites[k] && c.doc in keys;
        DocIdOfRender(c);
      }
    }
    assert VerifiedPositions(cites, keys) ==
           set k: nat | k < |cites| && CitesKnownDoc(cites[k], keys);
  }

  class CitationEnforcer {
    /** Fixed at construction: no operation updates it. */
    const strictMode: bool

    constructor (strictMode: bool)
      ensures this.strictMode == strictMode
    {
      this.strictMode := strictMode;
    }

    /** `CitationEnforcer()` without an argument: strict mode is the default. */
    constructor Default()
      ensures strictMode
    {
      strictMode := true;
    }

    /** Every token of `text`, verbatim, in order of position. */
    function ExtractCitations(text: string): (citations: seq<string>)
      ensures |citations| == |Spans(text)|
      ensures forall k :: 0 <= k < |citations| ==>
                citations[k] == text[Spans(text)[k].start..Spans(text)[k].end] && IsToken(citations[k])
    {
      AllExtractedAreTokens(text);
      Extract(text)
    }

    /** Strict mode rejects a text without citations; nothing else is ever rejected. */
    function Validate(text: string): (r: ValidationResult)
      ensures r.valid <==> !strictMode || ExtractCitations(text) != []
      ensures r.citationCount == |r.citations|
      ensures r.valid ==> r.citations == ExtractCitations(text) && r.reason == None
      ensures !r.valid ==> r.citations == [] && r.reason == Some(NoCitationsReason)
    {
      var citations := ExtractCitations(text);
      if citations == [] && strictMode then
        ValidationResult(false, 0, [], Some(NoCitationsReason))
      else
        ValidationResult(true, |citations|, citations, None)
    }

    /** Counts the citations of `llmOutput` as verified or invalid against the keys of
        `sourceDocs`; without a (non-empty) registry every citation counts as verified. */
    method Enforce(llmOutput: string, sourceDocs: Option<set<string>>) returns (r: EnforcementResult)
      ensures r.text == llmOutput
      ensures r.totalCitations == |ExtractCitations(llmOutput)|
      ensures r.citationsVerified + r.citationsInvalid == r.totalCitations
      ensures !Truthy(sourceDocs) ==> r.citationsVerified == r.totalCitations && r.citationsInvalid == 0
      ensures Truthy(sourceDocs) ==>
                r.citationsVerified == CountVerified(ExtractCitations(llmOutput), sourceDocs.value)
    {
      var citations := ExtractCitations(llmOutput);
      var verified, invalid := 0, 0;
      if Truthy(sourceDocs) {
        var keys := sourceDocs.value;
        for i := 0 to |citations|
          invariant verified == CountVerified(citations[..i], keys)
          invariant verified + invalid == i
        {
          var docId := DocId(citations[i]);
          if docId.Some? && docId.value in keys {
            verified := verified + 1;
          } else {
            invalid := invalid + 1;
          }
          assert citations[..i + 1][..i] == citations[..i];
        }
        assert citations[..|citations|] == citations;
      } else {
        verified := |citations|;
      }
      r := EnforcementResult(llmOutput, verified, invalid, |citations|);
    }
  }

  /** No call changes the enforcer, so the same call made twice gives the same result. */
  method EnforceIsRepeatable(enforcer: CitationEnforcer, llmOutput: string, sourceDocs: Option<set<string>>)
    returns (first: EnforcementResult, second: EnforcementResult)
    ensures first == second
  {
    first := enforcer.Enforce(llmOutput, sourceDocs);
    second := enforcer.Enforce(llmOutput, sourceDocs);
  }

  /** In strict mode a text is accepted exactly when some substring of it is a token. */
  lemma StrictValidIffSomeToken(enforcer: CitationEnforcer, text: string)
    requires enforcer.strictMode
    ensures enforcer.Validate(text).valid <==>
              exists p, q :: 0 <= p <= q <= |text| && IsToken(text[p..q])
  {
    if enforcer.Validate(text).valid {
      ExtractedIsToken(text, 0);
      var span := Spans(text)[0];
      assert IsToken(text[span.start..span.end]);
    }
    if exists p, q :: 0 <= p <= q <= |text| && IsToken(text[p..q]) {
      var p, q :| 0 <= p <= q <= |text| && IsToken(text[p..q]);
      TokenIffExtracted(text, p, q);
    }
  }
}
