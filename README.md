# Citation enforcer, modelled in Dafny

This project models `CitationEnforcer`, a post-processor for text produced by a
language model. It checks that the text carries citation tokens of the fixed shape
`[Doc_<digits>:Page_<digits>:Line_<digits>]` and reports on them. It has three
operations:

- `extract_citations`: every token of the text, verbatim and in order. This is
  `re.findall` over the token pattern.
- `validate`: in strict mode, a text without tokens is rejected with one fixed
  reason. Every other text is accepted, with its tokens and their count.
- `enforce`: counts the tokens as verified or invalid. With a non-empty registry
  of source documents, a token is verified when the digit run after its `Doc_` is
  a key of the registry. Without one, every token counts as verified. The text is
  returned unchanged.

Files:

- `citation_pattern.dfy` (module `CitationPattern`): the token shape and the two
  regular expressions the source uses, written out by hand for this one pattern.
  - `IsToken` is the declarative definition of a token, built from
    `Citation`/`Render`.
  - `MatchAt` is the matcher with greedy digit runs.
  - `MatchesFrom` is the left-to-right, non-overlapping scan that `re.findall`
    performs.
  - `SearchDocFrom`/`DocId` is `re.search(r'Doc_(\d+)', …)`.
  - The main results: every reported span is a token, every token in the text is
    reported, and spans are in order and do not overlap.
- `citation_enforcer.dfy` (module `Enforcement`): the class `CitationEnforcer`.
  - `strictMode` is a `const` field set by the constructor.
  - `ExtractCitations` and `Validate` are functions.
  - `Enforce` is a method whose loop keeps the two counters. The loop invariant
    ties the verified counter to `CountVerified` over the citations processed so
    far.
- `scenarios.dfy` (module `Scenarios`): concrete inputs.
  - The two texts of the module's demonstration block.
  - A near-miss token.
  - A registry lookup with one known and one unknown document.
  - General lemmas for texts made of bracket-free prose and tokens.

Modelling choices:

- The registry passed to `enforce` is modelled as `Option<set<string>>`: absent,
  or the set of its keys. The code only ever tests key membership, and keys are
  compared as strings, so `"007"` and `"7"` are different documents.
- `if source_docs:` at src/citation_enforcer.py:90 tests Python truthiness. An
  empty registry therefore takes the same branch as an absent one, and every
  citation counts as verified (`Truthy` in the model). One could expect a
  supplied but empty registry to mark every citation invalid; `if source_docs:`
  treats it as absent, and the model follows the code.
- The dictionaries the source returns are modelled as the datatypes
  `ValidationResult` and `EnforcementResult`. A `reason` of `None` is `None` of
  `Option`.
- The class docstring (src/citation_enforcer.py:19-23) shows a different reason
  string and fewer fields than `validate` returns. The model follows the code.

## Model

| member | source | states |
|---|---|---|
| CitationPattern.DigitsEnd | src/citation_enforcer.py:27 | a greedy `\d` run: every position before the returned end is a digit, and the end is the end of the text or a non-digit |
| CitationPattern.MatchAt | src/citation_enforcer.py:27 | a match of the pattern starts with `[` and is at least 21 characters long, and it lies inside the text |
| CitationPattern.MatchAtSound | src/citation_enforcer.py:27 | whatever the matcher accepts is exactly one token of the shape `[Doc_d:Page_p:Line_l]` with three non-empty digit runs |
| CitationPattern.MatchAtComplete | src/citation_enforcer.py:27 | every token written in the text at position i is matched at i, and the match ends exactly where the token ends |
| CitationPattern.MatchHasNoInnerBracket | src/citation_enforcer.py:27 | a match contains no `[` after its first character, so no two tokens can overlap |
| CitationPattern.MatchesFrom | src/citation_enforcer.py:39 | the findall scan reports spans inside the text, in increasing order, that do not overlap |
| CitationPattern.MatchesFromSound | src/citation_enforcer.py:39 | every span the scan reports is a successful match at its start |
| CitationPattern.MatchesFromComplete | src/citation_enforcer.py:39 | the scan skips no position where a match succeeds |
| CitationPattern.TokenIffExtracted | src/citation_enforcer.py:27-39 | a substring `s[p..q]` is a token if and only if the extraction reports the span (p, q); the extraction finds every token occurrence and nothing else, so a token written twice is reported twice |
| CitationPattern.ExtractedIsToken | src/citation_enforcer.py:37-39 | the k-th extracted string is the substring of the input at the k-th span, and it is a token |
| CitationPattern.Extract | src/citation_enforcer.py:39 | definition, no contract: `re.findall` of the token pattern, the substrings at the scanned spans; its meaning is proved by ExtractedIsToken and TokenIffExtracted |
| CitationPattern.AllExtractedAreTokens | src/citation_enforcer.py:37-39 | every string that extract_citations returns is a token |
| CitationPattern.SearchDocFrom | src/citation_enforcer.py:92 | what `re.search(r'Doc_(\d+)', …)` captures is a non-empty run of digits |
| CitationPattern.DocId | src/citation_enforcer.py:92 | definition, no contract: `re.search(r'Doc_(\d+)', citation)` from the start of the citation; its meaning is proved by SearchDocFrom, DocIdOfRender and DocIdOfToken |
| CitationPattern.DocIdOfRender | src/citation_enforcer.py:92 | the search finds the document identifier of every token: searching `[Doc_d:Page_p:Line_l]` gives d |
| CitationPattern.DocIdOfToken | src/citation_enforcer.py:92-96 | every token has a document identifier, so the "no match" branch of the check at line 93 is unreachable for extracted citations |
| Enforcement.Truthy | src/citation_enforcer.py:90 | definition, no contract: the test `if source_docs:`, false for an absent and for an empty registry; its effect is stated by Enforcement.CitationEnforcer.Enforce |
| Enforcement.Known | src/citation_enforcer.py:92-93 | definition, no contract: the test at line 93: the search found a document identifier and it is a registry key; its meaning is proved by ExtractedKnownIff and VerifiedCountByDocKey |
| Enforcement.CountVerified | src/citation_enforcer.py:91-96 | the number of citations whose document identifier is a registry key never exceeds the number of citations |
| Enforcement.CountVerifiedIsPositions | src/citation_enforcer.py:91-96 | that count equals the number of positions holding a citation whose identifier is a key |
| Enforcement.ExtractedKnownIff | src/citation_enforcer.py:91-96 | an extracted citation `[Doc_D:Page_P:Line_L]` counts as verified if and only if D, as a string, is a registry key |
| Enforcement.VerifiedCountByDocKey | src/citation_enforcer.py:91-96 | the verified count over the extracted citations is the number of citations `[Doc_D:Page_P:Line_L]` whose D is a registry key |
| Enforcement.CitationEnforcer.constructor | src/citation_enforcer.py:29-35 | the enforcer keeps the given strict-mode flag, and nothing changes it afterwards |
| Enforcement.CitationEnforcer.Default | src/citation_enforcer.py:29-35 | `CitationEnforcer()` with no argument is a strict enforcer: strict mode is the default |
| Enforcement.CitationEnforcer.ExtractCitations | src/citation_enforcer.py:37-39 | one result per scanned span, each the verbatim substring at that span and a token |
| Enforcement.CitationEnforcer.Validate | src/citation_enforcer.py:41-68 | a text is rejected exactly when strict mode is on and no citation is found. A rejection has count 0, no citations and the fixed reason. Otherwise the result holds all extracted citations and their count, with no reason. Non-strict mode never rejects |
| Enforcement.StrictValidIffSomeToken | src/citation_enforcer.py:53-61 | in strict mode a text is accepted exactly when some substring of it is a token |
| Enforcement.CitationEnforcer.Enforce | src/citation_enforcer.py:70-105 | the text is returned unchanged, total is the number of extracted citations, and verified + invalid = total. With an absent or empty registry, verified = total and invalid = 0. With a non-empty registry, verified is the number of citations whose `Doc_` digits are a key |
| Enforcement.EnforceIsRepeatable | src/citation_enforcer.py:85-105 | calling enforce twice with the same arguments on the same enforcer gives the same result |
| Scenarios.OneTokenText | src/citation_enforcer.py:37-39 | bracket-free prose around one token extracts to exactly that token |
| Scenarios.TwoTokenText | src/citation_enforcer.py:37-39 | two tokens joined by bracket-free text extract to exactly those two tokens, in order |
| Scenarios.CitedTextIsValid | src/citation_enforcer.py:112-114 | in strict mode the demonstration's cited text is valid, with count 1 and its one citation |
| Scenarios.UncitedTextIsRejected | src/citation_enforcer.py:117-119 | in strict mode the demonstration's uncited text is invalid, with count 0 and the fixed reason |
| Scenarios.NearMissYieldsNothing | src/citation_enforcer.py:27 | `[Doc_12:Page_3:Line]`, which lacks the line digits, yields no citation: there is no partial match |
| Scenarios.TwoCitationsOneKnown | src/citation_enforcer.py:90-96 | with a registry holding only document "1", the text with `[Doc_1:…]` and `[Doc_4:…]` has two citations, and one of them is verified |
| Scenarios.EnforceTwoCitations | src/citation_enforcer.py:70-105 | enforce on that text with that registry returns the text unchanged with 1 verified, 1 invalid and 2 in total |

## Left out

- Unicode digits: in Python 3, `\d` on `str` also matches non-ASCII decimal digits. The model accepts ASCII `0`–`9` only, so a token whose digit runs use other scripts is not recognised by the model.
- Registry values and non-string keys: the model keeps only the set of string keys. A dictionary keyed by integers (where `"1" in {1: …}` is false) is not modelled. Any value other than a dictionary or `None` passed as `source_docs` is not modelled either.
- The demonstration block (src/citation_enforcer.py:108-119) only prints. Its two texts appear as `Scenarios.CitedTextIsValid` and `Scenarios.UncitedTextIsRejected`. The printing is not modelled.
- A general regular-expression engine: only this one fixed pattern and the `Doc_` search are modelled. Greedy digit runs are modelled; no backtracking can produce a different match for this pattern.
- Enforcement.CitationEnforcer.constructor: `strict_mode` is a `const` field, so a caller assigning the public attribute `strict_mode` after construction is not modelled.
