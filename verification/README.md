# Verification model of rrxiv

rrxiv-python is the parser, claim graph and reference server of a protocol for papers whose claims can be cited,
replicated and annotated one by one. This project restates its logic in Dafny and proves what the repository's code
and documentation promise about it. `dafny verify dfyconfig.toml` checks everything.

## Layout

| file | what it models |
|---|---|
| `Walks.dfy`, `ClaimGraph.dfy`, `ManyCycles.dfy` | walks in relations; the typed claim graph with its search and cycle detection; a graph with more simple cycles than edges |
| `ClaimIds.dfy` | rewriting claim ids in place to a paper's slug, and what that does to the graph |
| `Base64Url.dfy`, `Pagination.dfy`, `AuthorListing.dfy` | cursor tokens (sections 3.2 and 5 of RFC 4648), keyset pages, the client's loop over a changing corpus, and a listing whose key can tie |
| `SourceMap.dfy`, `Flattening.dfy` | locating an offset of a flattened source, and the printer it inverts |
| `EvidencePairing.dfy`, `EdgeResolution.dfy`, `ClaimKeys.dfy`, `Sidecar.dfy`, `Includes.dfy` | assembling a paper from its TeX source and sidecar file |
| `RevisionDiff.dfy`, `WordDiff.dfy`, `Lineage.dfy` | comparing two versions of a paper |
| `RateLimiter.dfy`, `Slugs.dfy`, `Threads.dfy`, `Annotations.dfy` | server state: request windows, slugs and revision lineages, annotation writes |
| `StatusRule.dfy`, `Replication.dfy` | the status derived from the annotation log, and a paper's counts |
| `IsoWeeks.dfy`, `Cohorts.dfy` | activity by ISO week |
| `Text.dfy`, `Digits.dfy`, `Wrappers.dfy` | strings, numerals, options and results |

Code that works by changing things step by step is modelled by classes and loops, each proved against a function of
its inputs or of the old state; the lemmas then say what that function means. Where the source iterates over a set,
the model picks elements arbitrarily, so the results hold for every order.

The definitions these theorems are stated with are themselves described by lemmas, most of them named `...Means`, in
terms of characters, places, counts and literal words rather than of other definitions.

## Where the code and its documentation differ

The model follows the code.

- `find_cycles` says it finds all simple cycles; it records one per edge back into the current path. It finds them all
  for every order of the nodes if and only if no two of them share a hop (`AllAreListedIff`), and in some graphs it
  leaves cycles out whatever the order (`SomeCycleIsNotListed`).
- Evidence without a label is said to go to the latest unpaired claim before it; a second block behind one claim goes to
  nobody (`SecondProofIsDropped`, with the exact condition in `DocumentedFallbackIff`).
- The id rewriting expects parser prefixes without colons. In a file keyed by another slug it takes the bare scheme name
  for the prefix and rewrites foreign edges too (`SlugKeyedFileDragsForeignEdges`).
- After a nested block the source map still counts the nested content lines (`NestedLinesShiftNumbers`, with the exact
  condition in `LocateInvertsFlatten`).
- The second matching pass of the revision diff speaks of unique statements on both sides; it checks uniqueness on the
  previous side only (`ContestedStatementIsMatched`, with the exact condition in `UniqueOnBothSidesIff`).
- The lineage check also accepts two revisions of a common ancestor (`SiblingsCountAsLineage`, with the exact condition
  in `LineageIsAncestryIff`).
- The sixth digit of a slug's number is not foreseen by the slug pattern, so minting repeats itself after 99999
  (`LongMonthRepeatsASlug`, with the exact condition in `MintIsFreshUnlessExhausted`).
- The status rule speaks of a retraction by the paper's author; any identity's retraction counts
  (`StrangersRetractionCounts`, with the exact condition in `DocumentedStatusIff`).
- The reply check takes the part of a target before its first colon for the paper, which is the same for all
  slug-keyed papers: it refuses replies within one slug-keyed paper (`ReplyToOwnSlugPaperRefused`) and accepts replies
  across them (`ReplyAcrossSlugPapersAccepted`). It does not resolve the annotation a note is attached to, as its helper
  asks of it, so such a note may answer a note on any other paper (`AttachedReplyChangesPaper`). `SamePaperRuleIff` has
  the exact condition for both.
- An annotation posted again under its own id can close a cycle of replies (`RepostingCanCloseACycle`, with the exact
  condition in `StoringKeepsEndsIff`).
- The author listing pages by a key that can tie (`AuthorsCanTie`, with the exact condition in `FixedCorpus`).

## Model

| member | source | states |
|---|---|---|
| `Walks.WithinConverse` | src/rrxiv/graph.py:157-170 | reaching b from a along a relation within a depth is reaching a from b along its converse within that depth, for every relation |
| `Walks.SinkingIsAcyclic` | src/rrxiv/graph.py:212-226 | when every source of an edge is finished and every edge leads from a later finished node to an earlier one, no closed walk exists |
| `Walks.CyclesUseHops` | src/rrxiv/graph.py:202-231 | if a relation without some hops has no closed walk, every closed walk of the relation uses one of those hops |
| `Walks.NextRound` | src/rrxiv/graph.py:183-199 | one breadth-first round turns the ball of radius k into the ball of radius k + 1, although only the frontier is expanded |
| `Walks.BallIsReach` | src/rrxiv/graph.py:180-200 | stopping after a depth, or when the frontier is empty, leaves exactly the nodes other than the start at distance 1 to that depth, and all reachable ones when unbounded |
| `Walks.RenamingKeepsReach` | src/rrxiv/server/papers/claim_ids.py:65-85 | an injective renaming of the nodes of a relation maps what is reachable onto what is reachable, at every depth |
| `ClaimGraphs.FileAllCounts` | src/rrxiv/graph.py:95-103 | filing edges adds each of them, with its multiplicity, under its near end, parallel edges included |
| `ClaimGraphs.FileAllKeepsMirror` | src/rrxiv/graph.py:95-103 | the outgoing and incoming maps stay mirror images of each other |
| `ClaimGraphs.ArcsMirror` | src/rrxiv/graph.py:126-138 | for each kind, the relation read off the incoming map is the converse of the one read off the outgoing map |
| `ClaimGraphs.FiledEdgesAreArcs` | src/rrxiv/graph.py:82-103 | the relation of a graph built from claims is exactly the set of (id, target) pairs of the claims' lists of that kind |
| `ClaimGraphs.ClaimGraph.AddClaim` | src/rrxiv/graph.py:89-103 | adds the node, replaces the claim record, files all four edge lists on both sides and keeps the mirror invariant |
| `ClaimGraphs.ClaimGraph.DanglingTargets` | src/rrxiv/graph.py:145-151 | the targets of edges of any kind that are no nodes |
| `ClaimGraphs.ClaimGraph.Reach` | src/rrxiv/graph.py:172-200 | for every visiting order of a frontier, returns exactly the nodes other than the start within the depth; ends on cyclic graphs |
| `ClaimGraphs.ClaimGraph.Dependencies` | src/rrxiv/graph.py:157-163 | exactly the nodes reachable along outgoing depends_on edges within the depth, without the start |
| `ClaimGraphs.ClaimGraph.Dependents` | src/rrxiv/graph.py:165-170 | exactly the nodes reachable along incoming depends_on edges within the depth, without the start |
| `ClaimGraphs.ClaimGraph.DependentsMirrorDependencies` | src/rrxiv/graph.py:157-170 | b is a dependency of a within a depth if and only if a is a dependent of b within it |
| `ClaimGraphs.CycleSearch.Visit` | src/rrxiv/graph.py:212-226 | the recursive search ends, also through dangling targets discovered on the way, restores the stack and keeps: the stack is a path, recorded cycles are simple cycles, finished nodes sink once the closing hops of the recorded cycles are taken away, no two recorded cycles have the same ends, and a recorded cycle through the node visited first starts there |
| `ClaimGraphs.CycleSearch.Conclude` | src/rrxiv/graph.py:228-231 | with every node finished, the graph without the closing hops of the recorded cycles is acyclic, and no cycle is recorded if and only if there is none |
| `ClaimGraphs.ClaimGraph.FindCycles` | src/rrxiv/graph.py:202-231 | for every order of the nodes, each list returned is a simple cycle of the kind, the result is empty if and only if there is no directed cycle of that kind, every directed cycle uses the closing hop of a returned one, and there are at least as many edges of the kind as cycles returned; all simple cycles are listed if no two of them share a hop, and not all are listed if two of them share a hop into the node visited first |
| `ClaimGraphs.AllAreListedIff` | src/rrxiv/graph.py:202-231 | every order of the nodes gives all simple cycles, as documented, if and only if no two different simple cycles share a hop: otherwise there is a node such that no search that visits it first lists them all |
| `ManyCycles.SomeCycleIsNotListed` | src/rrxiv/graph.py:202-205 | in the graph built from four claims that all depend on each other, whatever list a search returns leaves out a simple cycle, for every order of the nodes |
| `ManyCycles.DifferentCyclesCount` | src/rrxiv/graph.py:202-205 | a list holds at least as many cycles as it holds cycles with different sets of hops |
| `ClaimGraphs.ClaimGraph.AssertNoCycles` | src/rrxiv/graph.py:233-242 | fails exactly on cyclic graphs, and then with a real cycle of the kind asked for |
| `ClaimGraphs.FromClaims` | src/rrxiv/graph.py:82-87 | the nodes are the claim ids and the relation of each kind is the one the claim lists describe |
| `ClaimIdRewriting.RewriteChanges` | src/rrxiv/server/papers/claim_ids.py:65-66 | rewriting changes a string if and only if it carries the old prefix |
| `ClaimIdRewriting.OldPrefixMeans` | src/rrxiv/server/papers/claim_ids.py:40-60 | the prefix to exchange is the part of the first claim's id up to its first colon, unless there is none, that part is the slug, or the id is under the slug already |
| `ClaimIdRewriting.RewriteMeans` | src/rrxiv/server/papers/claim_ids.py:62-66 | a string under the old prefix goes to the same place under the new one, any other stays |
| `ClaimIdRewriting.CanonicalMeans` | src/rrxiv/server/papers/claim_ids.py:68-94 | every claim belongs to the slug afterwards, and every id, every end of an edge and every annotation target has its prefix exchanged |
| `ClaimIdRewriting.DifferencesMean` | src/rrxiv/server/papers/claim_ids.py:81-85 | changes in a list are counted by place |
| `ClaimIdRewriting.RecordDifferencesMean` | src/rrxiv/server/papers/claim_ids.py:69-75 | a changed id and a changed owner count once each |
| `ClaimIdRewriting.Cir.Canonicalise` | src/rrxiv/server/papers/claim_ids.py:14-94 | the in-place pass leaves the canonical file, keeps its shape, and returns the number of string positions that differ afterwards |
| `ClaimIdRewriting.Cir.RewriteClaims` | src/rrxiv/server/papers/claim_ids.py:68-85 | the claim loop rewrites ids, owners and all edge lists and counts every changed position |
| `ClaimIdRewriting.Cir.RewriteTargets` | src/rrxiv/server/papers/claim_ids.py:89-92 | the annotation loop rewrites targets and counts the changed ones |
| `ClaimIdRewriting.SecondCallDoesNothing` | src/rrxiv/server/papers/claim_ids.py:39-63 | a second call changes nothing and finds no prefix to replace, for every file |
| `ClaimIdRewriting.RenamingInjectiveIffNoClash` | src/rrxiv/server/papers/claim_ids.py:65-66 | the rewriting keeps ids apart if and only if no rewritten id lands on one that is left alone |
| `ClaimIdRewriting.SeparatedIdsDoNotClash` | src/rrxiv/server/papers/claim_ids.py:39-63 | own ids under the old prefix and foreign ids under neither prefix never clash |
| `ClaimIdRewriting.RewritingKeepsReach` | src/rrxiv/server/papers/claim_ids.py:68-85 | without clashes, what is reachable from a rewritten id within any depth is exactly the rewritten form of what was reachable |
| `ClaimIdRewriting.InternalStaysInternal` | src/rrxiv/server/papers/claim_ids.py:68-85 | edges to own claims still lead to own claims, and targets in foreign papers are not touched |
| `ClaimIdRewriting.CanonicalGraphIsIsomorphic` | src/rrxiv/server/papers/claim_ids.py:14-94 | the same for a whole call: the dependencies of a renamed claim are the renamed dependencies |
| `ClaimIdRewriting.SlugKeyedFileDragsForeignEdges` | src/rrxiv/server/papers/claim_ids.py:46-63 | a file already keyed by another slug has the bare scheme name taken for its prefix, so edges to foreign slugs are rewritten too |
| `Base64Url.DecodeEncode` | src/rrxiv/server/pagination.py:35-61 | decoding an unpadded base64url token gives back every byte string that was encoded |
| `Base64Url.EncodeDecode` | src/rrxiv/server/pagination.py:35-61 | a token decodes and encodes back to itself if and only if it has letters of the alphabet only, a length other than 1 modulo 4 and no unused bits set in its last letter; the decoder also takes other tokens, skipping foreign characters |
| `Base64Url.DecodeOfLetters` | src/rrxiv/server/pagination.py:41-49 | on letters of the alphabet the padded, character-skipping decoder takes groups of four letters apart, with short tails for two or three |
| `Base64Url.AlphabetIsTable` | src/rrxiv/server/pagination.py:35-38 | the letters are those of the table in section 5 of RFC 4648 |
| `Base64Url.SplitKeepsBits` | src/rrxiv/server/pagination.py:35-38 | three bytes and their four letters are one 24-bit number in base 256 and in base 64, and shorter tails are filled with zero bits |
| `Base64Url.ForeignIsSkipped` | src/rrxiv/server/pagination.py:41-50 | a character of neither base64 alphabet can be left out anywhere in a token |
| `Base64Url.PaddingEnds` | src/rrxiv/server/pagination.py:41-50 | enough padding ends a token, whatever follows; padding that comes too early counts for nothing |
| `KeyOrder.LessTotal` | src/rrxiv/server/pagination.py:127-148 | keys are totally ordered: exactly one of less, greater, equal |
| `KeyOrder.LessTransitive` | src/rrxiv/server/pagination.py:127-148 | the order of keys is transitive |
| `KeyOrder.StringLessMeans` | src/rrxiv/server/pagination.py:127-140 | a text is smaller if it is a proper beginning of the other or has the smaller character at the first place where they differ |
| `KeyOrder.LessMeans` | src/rrxiv/server/pagination.py:127-140 | the same for keys, by the texts at the first place where they differ |
| `Pagination.ClampLimit` | src/rrxiv/server/pagination.py:64-72 | absent means 50, below 1 is refused, 1 to 200 is kept, anything above is cut to 200 |
| `Pagination.CursorRoundTrip` | src/rrxiv/server/pagination.py:35-61 | a cursor made from a key decodes to that key and is never empty |
| `Pagination.SortCorrect` | src/rrxiv/server/pagination.py:95-95 | the listing is a permutation of the items in which no key comes before a smaller one, or a greater one when descending, read off the first differing character |
| `Pagination.SortIsStable` | src/rrxiv/server/pagination.py:95-95 | items with equal keys keep their order |
| `Pagination.Paginate` | src/rrxiv/server/pagination.py:75-124 | refused exactly when the limit is below 1 or the cursor holds no key; otherwise the page is the first part of exactly those items of the sorted listing whose keys come strictly behind the cursor's, in order, and a next cursor with the last key is given exactly when more follow |
| `Pagination.IterItems` | src/rrxiv/client/async_client.py:254-270 | the client loop, run against snapshots that may differ from fetch to fetch, yields what the page-by-page run describes |
| `Pagination.NeverYieldedAgain` | src/rrxiv/server/pagination.py:110-124 | a key that is not strictly behind the cursor is not yielded again, whatever is inserted or removed |
| `Pagination.YieldedExactlyOnce` | src/rrxiv/client/async_client.py:254-270 | while the corpus changes between fetches, a key no fetched snapshot holds twice is yielded at most once, and one every fetched snapshot holds once is yielded exactly once by the end of the loop |
| `Pagination.YieldedInOrder` | src/rrxiv/client/async_client.py:254-270 | whatever happens to the corpus, items come out in listing order |
| `Pagination.FixedCorpus` | src/rrxiv/server/pagination.py:75-124 | on an unchanging corpus the loop ends, and the pages concatenate to the sorted list if and only if no page ends between two equal keys |
| `Pagination.DistinctKeysDoNotTie` | src/rrxiv/server/pagination.py:75-124 | distinct keys rule out pages that end between equal keys |
| `AuthorListing.AuthorsCanTie` | src/rrxiv/server/authors/router.py:191-198 | two authors with as many papers and names differing in case have one key, and with pages of one row the client loop over the author listing never shows both |
| `AuthorListing.SameKeyIff` | src/rrxiv/server/authors/router.py:191-191 | two authors share a key exactly when their counts give one sort key and their names differ in case at most |
| `AuthorListing.AuthorOrder` | src/rrxiv/server/authors/router.py:191-191 | authors with more papers come first, and with as many the one with the smaller name in lower case |
| `SourceMaps.SourceMap.FromFlatText` | src/rrxiv/parser/source_map.py:87-179 | the line scan with its stack, regions and synthetic lines yields the scan state of the text and its line starts, for every text |
| `SourceMaps.SourceMap.FindLineStarts` | src/rrxiv/parser/source_map.py:95-99 | the line starts are 0 and the positions behind the line breaks |
| `SourceMaps.SourceMap.OffsetToFlatLine` | src/rrxiv/parser/source_map.py:192-207 | the binary search returns 1 plus the number of line breaks before the offset |
| `SourceMaps.SyntheticIncreases` | src/rrxiv/parser/source_map.py:111-153 | synthetic lines are recorded in increasing order, which the early exit of the count relies on |
| `SourceMaps.ClassifyMeans` | src/rrxiv/parser/source_map.py:30-39 | a line opens or closes a block, or is a note about a missing or skipped file, exactly when it has the literal shape of one, white space before a note and behind a file name included; any other line is plain |
| `SourceMaps.SourceMap.SyntheticBetween` | src/rrxiv/parser/source_map.py:209-223 | counts the synthetic lines in the half-open range, although it stops early |
| `SourceMaps.SourceMap.Locate` | src/rrxiv/parser/source_map.py:225-258 | returns the file and line of the innermost region of the offset's flat line, less the synthetic lines before it |
| `SourceMaps.InnermostIsUnique` | src/rrxiv/parser/source_map.py:118-171 | for every text, well marked or not, regions are laminar, so the innermost one is unique and inside all others that cover the line |
| `Flattening.FlattenedScan` | src/rrxiv/parser/source_map.py:104-171 | scanning what a flattening printer writes finds exactly its blocks and marker lines, leaving nothing open |
| `Flattening.PlaceIsInnermost` | src/rrxiv/parser/source_map.py:235-243 | the block a flat line was printed for is the innermost region covering it |
| `Flattening.CountInPlace` | src/rrxiv/parser/source_map.py:246-258 | between the opening marker of the innermost block and a line in it, the lines that are not synthetic are the block's own ones and those of blocks nested in it |
| `Flattening.OwnLinesCountNumbers` | src/rrxiv/parser/source_map.py:246-258 | the count exceeds the true line number by the drift of the blocks nested before the line, which is 0 before the first such block |
| `Flattening.LocateInvertsFlatten` | src/rrxiv/parser/source_map.py:225-258 | for every offset of every file line, at any nesting depth: an inlined file's name is right and its line number is right if and only if the drift is 0, always so before the first nested block; in the outermost file if and only if only own lines come before |
| `Flattening.NestedLinesShiftNumbers` | src/rrxiv/parser/source_map.py:246-258 | behind a nested block of two lines the second line of a file is located at line 3 |
| `Flattening.NestedLinesArePrintable` | src/rrxiv/parser/source_map.py:87-179 | such files can be flattened: one of a nested block with lines a and b and a line c behind it |
| `Flattening.OpenBlockReachesEnd` | src/rrxiv/parser/source_map.py:130-167 | the lines of a block that is never closed are located in its file up to the end of the text, numbered without notes and without end markers of other files |
| `EvidencePairing.PairClaimsWithEvidence` | src/rrxiv/parser/build.py:75-153 | the indexed greedy matching computes the pairs of the specification |
| `EvidencePairing.PairsAreSound` | src/rrxiv/parser/build.py:105-153 | each pair shares a label suffix or lies between its claim and the next one; no evidence is given out twice |
| `EvidencePairing.PairsPointForward` | src/rrxiv/parser/build.py:105-153 | evidence never stands before its claim |
| `EvidencePairing.FallbackStaysBeforeNextClaim` | src/rrxiv/parser/build.py:130-151 | a fallback pair lies strictly between its claim and every later claim |
| `EvidencePairing.LabelSuffixMeans` | src/rrxiv/parser/build.py:66-72 | the pairing key is what stands behind the first colon of a label, or the whole of a label without colons; an empty label has none |
| `EvidencePairing.UniqueSuffixGetsFirstEvidence` | src/rrxiv/parser/build.py:107-128 | evidence labelled ev:I.1 goes to the claim labelled prop:I.1: a claim whose suffix no other claim has gets the first later evidence with it, and no fallback takes it away |
| `EvidencePairing.UnpairedHadNoChoice` | src/rrxiv/parser/build.py:105-153 | a claim stays without evidence only if everything it could have taken went to earlier claims |
| `EvidencePairing.PairsPersist` | src/rrxiv/parser/build.py:105-153 | environments behind a claim never change its pair once it is made |
| `EvidencePairing.DocumentedFallbackIff` | src/rrxiv/parser/build.py:86-90 | in documents that do not label their evidence, the pairs are the documented ones, each block going to the latest unpaired claim before it, if and only if no claim that is not followed by evidence comes before evidence that does not follow a claim |
| `EvidencePairing.SecondProofIsDropped` | src/rrxiv/parser/build.py:130-151 | with two claims and then two blocks without labels the second block and the first claim stay without a pair, although they are a pair as documented |
| `EdgeResolution.BuildLabelResolver` | src/rrxiv/parser/build.py:273-310 | the loop builds the map in which full labels win over claim suffixes and those over other suffixes |
| `EdgeResolution.ResolveIdempotent` | src/rrxiv/parser/build.py:313-333 | resolving a resolved endpoint changes nothing, for every string |
| `EdgeResolution.BareSuffixPrefersClaim` | src/rrxiv/parser/build.py:285-310 | a bare suffix resolves to the last claim carrying it, and only without one to the first other environment |
| `EdgeResolution.FullLabelWins` | src/rrxiv/parser/build.py:310-333 | a full label resolves to its own environment even where it is also another label's suffix |
| `EdgeResolution.SuffixMeans` | src/rrxiv/parser/build.py:301-301 | the short form of a label is what stands behind its first colon |
| `EdgeResolution.UnknownEndpointMeans` | src/rrxiv/parser/build.py:313-333 | an id of this paper stays; an endpoint no label explains stays if it has a colon, and is a name in this paper otherwise |
| `EdgeResolution.EdgeStandsInOrder` | src/rrxiv/parser/build.py:536-547 | an edge of a kind from an emitted id stands in that list behind exactly the ones before it in the file, with its target resolved |
| `EdgeResolution.OnlyEdgesAreListed` | src/rrxiv/parser/build.py:536-547 | every entry of such a list comes from such an edge |
| `EdgeResolution.BuildClaimEdges` | src/rrxiv/parser/build.py:493-547 | grouping by resolved source and distributing by kind gives each emitted claim, scope and remark the lists above |
| `EdgeResolution.RecordForMeans` | src/rrxiv/parser/build.py:532-547 | each kind of edge goes to the list of its name |
| `EdgeResolution.EmittedMeans` | src/rrxiv/parser/build.py:689-701 | records are emitted for claims and for labelled scopes and remarks with text, under the paper's id and the label, or the environment's name and number |
| `EdgeResolution.EmittedInOrder` | src/rrxiv/parser/build.py:504-504 | in the order of the document |
| `EdgeResolution.EdgesAreConserved` | src/rrxiv/parser/build.py:496-547 | an edge is placed once for every emitted record with its resolved source, and nowhere else |
| `EdgeResolution.DistinctIdsPlaceEachEdgeOnce` | src/rrxiv/parser/build.py:737-755 | with distinct emitted ids, as many edges are placed as start at an emitted id |
| `ClaimKeys.SplitDepth0` | src/rrxiv/parser/build.py:376-392 | the brace-aware loop computes the pieces of the specification, with depth never below 0 |
| `ClaimKeys.PiecesRejoin` | src/rrxiv/parser/build.py:376-392 | the pieces rejoin with commas to the input and none of them has a comma at depth 0 |
| `ClaimKeys.PiecesOfJoin` | src/rrxiv/parser/build.py:376-392 | balanced texts without top-level commas come back as the pieces of their comma-joined list |
| `ClaimKeys.HasTopEquals` | src/rrxiv/parser/build.py:411-422 | the loop reports whether an equals sign stands outside all braces |
| `ClaimKeys.ParseClaimKeys` | src/rrxiv/parser/build.py:402-470 | the parse loop with its first error, its type checks and its not-a-key-list answer equals the specification |
| `ClaimKeys.AddPartMeans` | src/rrxiv/parser/build.py:425-456 | an entry of white space does nothing, one without an equals sign or with an unknown key fails the list, any other sets its key to the value behind the first equals sign |
| `ClaimKeys.StripBracesMeans` | src/rrxiv/parser/build.py:395-399 | a value in braces loses them and the white space around and within, any other value is trimmed |
| `ClaimKeys.ParseValueMeans` | src/rrxiv/parser/build.py:441-456 | confidences are numbers from 0 to 1, the five list keys take lists, the others texts |
| `ClaimKeys.NonEmptyTrimmedMeans` | src/rrxiv/parser/build.py:454-454 | list items are trimmed and empty ones left out |
| `ClaimKeys.CheckTypesMeans` | src/rrxiv/parser/build.py:458-469 | a list is refused exactly for a type or kind of evidence outside the known ones |
| `ClaimKeys.ParsedKeysNoneIff` | src/rrxiv/parser/build.py:409-422 | an argument counts as a title exactly when it is absent or no equals sign stands outside braces |
| `ClaimKeys.PrintedListParses` | src/rrxiv/parser/build.py:402-470 | parsing a printed list of key={value} entries gives what the entries mean one after the other, and fails exactly when they do |
| `ClaimKeys.ValuesRoundTrip` | src/rrxiv/parser/build.py:402-470 | parsing the printed form of a list of keys with texts, lists and numbers gives back exactly these values, later entries winning; for numbers, when their numerals read back |
| `ClaimKeys.ListValueRoundTrip` | src/rrxiv/parser/build.py:440-454 | the printed form of a list is a legal value and is read back as the same list |
| `Sidecars.ParseSidecarText` | src/rrxiv/parser/sidecar.py:120-282 | the line loop returns the markers of the four kinds in file order and sets each warning latch exactly when a line calls for it |
| `Sidecars.ParseLineMeans` | src/rrxiv/parser/sidecar.py:170-185 | a line with the old prefix gives the marker it gives with the new one, and the warning; lines with neither are skipped |
| `Sidecars.VocabularyMeans` | src/rrxiv/parser/sidecar.py:132-161 | the known words of each kind of line |
| `Sidecars.UnknownHeadIsSkipped` | src/rrxiv/parser/sidecar.py:185-256 | lines whose first word is unknown or stands alone are skipped |
| `Sidecars.UnknownMetaIsSkipped` | src/rrxiv/parser/sidecar.py:187-190 | so are meta lines with an unknown key or without a value |
| `Sidecars.UnknownEdgeIsSkipped` | src/rrxiv/parser/sidecar.py:220-256 | and edge lines with an unknown kind or without ends |
| `Sidecars.ParseEdgeMeans` | src/rrxiv/parser/sidecar.py:220-248 | an edge is cut at its first bar and dropped when an end is empty; without a bar it is of the old format, where a single token is no edge |
| `Sidecars.ParseAuthorMeans` | src/rrxiv/parser/sidecar.py:192-218 | an author line gives a marker exactly when a number, a bar and a known key with a value are there |
| `Sidecars.ParseIntMeans` | src/rrxiv/parser/sidecar.py:198-201 | the number may have a sign and white space around it |
| `Sidecars.ParseIntFails` | src/rrxiv/parser/sidecar.py:198-201 | and is none exactly when a character other than a digit, or nothing, is left |
| `Sidecars.FieldsOfMeans` | src/rrxiv/parser/sidecar.py:207-215 | fields without an equals sign, with unknown keys or without a value are dropped, and a later value replaces an earlier one |
| `Sidecars.SortedMeans` | src/rrxiv/parser/sidecar.py:277-282 | each kind of marker has its own list, in the order of the file |
| `Sidecars.MarkersDistribute` | src/rrxiv/parser/sidecar.py:170-256 | parsing a list of lines is parsing its parts and concatenating |
| `Sidecars.FilesDistribute` | src/rrxiv/parser/sidecar.py:170-256 | the same for files cut behind a line break |
| `Sidecars.MetaRoundTrip` | src/rrxiv/parser/sidecar.py:187-190 | a printed meta line parses to its key and value, colons included |
| `Sidecars.EnvRoundTrip` | src/rrxiv/parser/sidecar.py:250-254 | a printed environment line parses to its kind and index, colons included |
| `Sidecars.EdgeRoundTrip` | src/rrxiv/parser/sidecar.py:220-248 | a printed v0.2 edge line parses to its endpoints when the source has no pipe |
| `Sidecars.AuthorRoundTrip` | src/rrxiv/parser/sidecar.py:192-218 | a printed author line parses to its number and fields |
| `Sidecars.PrintedFileParses` | src/rrxiv/parser/sidecar.py:120-282 | parsing a printed v0.2 file gives back the same markers in order and no warning |
| `Sidecars.LegacyEdgeRecovered` | src/rrxiv/parser/sidecar.py:231-248 | a colon-joined v0.1 edge with p source and q target tokens is recovered if and only if p = q, or p + q is odd and q = 1; the warning is always set |
| `Includes.PiecesMakeUpText` | src/rrxiv/parser/tex.py:601-601 | cutting a text into directives and characters loses nothing |
| `Includes.DirectiveIsFound` | src/rrxiv/parser/tex.py:601-601 | the first directive behind text without backslashes is found with its argument, white space before the brace included |
| `Includes.DirectiveAtMeans` | src/rrxiv/parser/tex.py:601-601 | and nothing else than the two commands, white space and a non-empty argument in braces is taken for a directive |
| `Includes.DirectiveMeans` | src/rrxiv/parser/tex.py:644-663 | a directive naming a figure stays as it is; any other includes the file found under its trimmed argument or leaves a comment |
| `Includes.NoSkipsIffChainsFit` | src/rrxiv/parser/tex.py:641-665 | below any file, at any depth and under any ancestors, a skip marker is missing if and only if every chain of includes from it fits |
| `Includes.SkipsIffCyclicOrDeep` | src/rrxiv/parser/tex.py:612-667 | a source is expanded without skip markers if and only if no chain of includes from it repeats a file or takes more than 16 steps; expansion ends on every include graph |
| `Includes.UnskippedIsFull` | src/rrxiv/parser/tex.py:641-665 | where nothing is skipped below a file, the includes below it being acyclic, the expansion is the unbounded one |
| `Includes.FullExpansionIff` | src/rrxiv/parser/tex.py:612-667 | where the includes below the source are acyclic, whatever the other files do, the result is the unbounded expansion if and only if no chain takes more than 16 steps |
| `Includes.FigureSourceIsUnchanged` | src/rrxiv/parser/tex.py:651-655 | a source whose directives all name figures comes out character for character |
| `RevisionDiff.IndexByLocal` | src/rrxiv/server/papers/diff.py:45-54 | the buckets hold, in order, the claims of each local id, and the keys appear in order of first use |
| `RevisionDiff.MatchClaims` | src/rrxiv/server/papers/diff.py:57-104 | the two passes compute the specified matching and what it leaves over on each side |
| `RevisionDiff.ByLocalCorrect` | src/rrxiv/server/papers/diff.py:80-86 | the first pass pairs exactly the claims that are alone with their local id on both sides, and is injective |
| `RevisionDiff.ByStatementCorrect` | src/rrxiv/server/papers/diff.py:88-100 | the second pass pairs only equal statements that are unique among the previous leftovers, and is injective when ids are distinct |
| `RevisionDiff.RefusedForAmbiguity` | src/rrxiv/server/papers/diff.py:88-104 | a statement left over unmatched on both sides is left two or more times on the previous side |
| `RevisionDiff.FirstSpeakerTakes` | src/rrxiv/server/papers/diff.py:91-100 | the second pass pairs a previous claim with a current one if and only if the former is alone in its bucket and the latter is the first current leftover with the statement |
| `RevisionDiff.SecondPassIs` | src/rrxiv/server/papers/diff.py:88-100 | the same in terms of the claims the first pass leaves over, for all versions |
| `RevisionDiff.CurrentRefusedIff` | src/rrxiv/server/papers/diff.py:94-104 | a current leftover stays unmatched if and only if its statement is not left exactly once on the previous side or an earlier leftover took it |
| `RevisionDiff.UniqueOnBothSidesIff` | src/rrxiv/server/papers/diff.py:67-70 | every pair of the second pass is unique by statement on both sides, as documented, if and only if no statement left exactly once on the previous side is left more than once on the current side |
| `RevisionDiff.ContestedStatementIsMatched` | src/rrxiv/server/papers/diff.py:67-70 | one previous and two current claims with one statement and three labels: the first current one is matched although its side is not unique |
| `RevisionDiff.MatchingIsInjection` | src/rrxiv/server/papers/diff.py:57-104 | with distinct ids the matching is a partial injection whose pairs share a local id or a statement and include every unique partnership |
| `RevisionDiff.NothingIsLost` | src/rrxiv/server/papers/diff.py:57-104 | with distinct ids matched and left-over claims add up to each version and nothing is both |
| `RevisionDiff.LocalIdMeans` | src/rrxiv/server/papers/diff.py:31-42 | the local id is what stands behind the first colon |
| `RevisionDiff.PayloadMeans` | src/rrxiv/server/papers/diff.py:175-205 | a matched pair counts as modified exactly when it differs in statement, proof, one of the types, figures, one of the edge lists or the source location, and names exactly the fields that differ; edge lists are compared as multisets |
| `RevisionDiff.SameFiguresMeans` | src/rrxiv/server/papers/diff.py:218-224 | figures agree exactly when each path has the same captions in the same order, however paths are interleaved |
| `RevisionDiff.ClaimsDiff` | src/rrxiv/server/papers/diff.py:268-324 | removed + modified + unchanged is the previous version and added + modified + unchanged the current one; unchanged are exactly the matched pairs that agree in every tracked field |
| `WordDiff.TokensRejoin` | src/rrxiv/server/papers/diff.py:150-158 | the tokens concatenate to the text |
| `WordDiff.TokensStartWords` | src/rrxiv/server/papers/diff.py:150-158 | no token is empty, and every token but the first starts a word |
| `WordDiff.TokensAreWords` | src/rrxiv/server/papers/diff.py:150-158 | each token is one word with the white space behind it; only the first may lack the word |
| `WordDiff.Hunks` | src/rrxiv/server/papers/diff.py:112-147 | for every valid edit script, equal and removed hunks rebuild the old text and equal and added hunks the new one |
| `Lineage.WalkChain` | src/rrxiv/server/papers/diff.py:352-364 | the bounded walk collects the stored papers on the version chain |
| `Lineage.InSameLineage` | src/rrxiv/server/papers/diff.py:334-368 | answers yes if and only if the ids are equal or their chains meet |
| `Lineage.LineageMeansAncestry` | src/rrxiv/server/papers/diff.py:334-368 | in a store where no two papers share a stored previous version the answer is yes if and only if one paper is reached from the other within the bound |
| `Lineage.SiblingsCountAsLineage` | src/rrxiv/server/papers/diff.py:334-368 | in an acyclic store, two revisions of one stored paper always count as one lineage although neither is an ancestor of the other at any distance |
| `Lineage.LineageIsAncestryIff` | src/rrxiv/server/papers/diff.py:334-368 | in an acyclic store the answer means ancestry for all pairs of papers if and only if no two papers share a stored previous version |
| `RateLimiter.DropOldCounts` | src/rrxiv/server/store/memory.py:187-194 | on an ascending window, dropping from the front leaves exactly the requests at or after the cutoff |
| `RateLimiter.RateWindows.RecordRequest` | src/rrxiv/server/store/memory.py:187-194 | over any run with a non-decreasing clock, returns the number of that token's requests, admitted or not, in the closed last 60 seconds |
| `RateLimiter.RateWindows.Admit` | src/rrxiv/server/deps.py:132-137 | admits a request if and only if that number is within the limit of its tier and method |
| `RateLimiter.RpmForMeans` | src/rrxiv/server/deps.py:188-204 | named identities have limits of their own for GET or HEAD and for other methods, in any case; anonymous ones have one limit |
| `RateLimiter.AtMostLimitAdmitted` | src/rrxiv/server/deps.py:132-137 | in every interval of 60 seconds at most L requests with limit L are admitted for a token, however reads, writes and rejected attempts are mixed |
| `Slugs.YymmIsFourDigits` | src/rrxiv/server/papers/slug.py:44-50 | year and month print as four digits |
| `Slugs.YymmMeans` | src/rrxiv/server/papers/slug.py:44-50 | the last two digits of the year and two for the month |
| `Slugs.ParseSlugMeans` | src/rrxiv/server/papers/slug.py:18-24 | a slug is the scheme, four digits, a dot and five digits, and perhaps a final line break, and nothing else |
| `Slugs.SlugTextParses` | src/rrxiv/server/papers/slug.py:18-24 | a minted slug parses back to its month and number if the number has at most five digits, and is no slug otherwise |
| `Slugs.MintSlug` | src/rrxiv/server/papers/slug.py:53-79 | the scan mints the number after the highest one stored for the month |
| `Slugs.MaxCounterBounds` | src/rrxiv/server/papers/slug.py:66-78 | that highest number bounds every stored one and never exceeds 99999 |
| `Slugs.MaxCounterMeans` | src/rrxiv/server/papers/slug.py:66-78 | and is the number of a stored paper of the month, or 0 if there is none |
| `Slugs.MintIsFreshUnlessExhausted` | src/rrxiv/server/papers/slug.py:53-79 | a minted slug is fresh if and only if it is not the case that number 99999 is taken and the first six-digit slug has been given out already |
| `Slugs.LongMonthRepeatsASlug` | src/rrxiv/server/papers/slug.py:53-79 | after 100000 first versions in one month, starting from the empty store, the lineages are in order and the slug minted next is that of a stored paper |
| `Slugs.MintAdvances` | src/rrxiv/server/papers/slug.py:53-79 | a first version under the minted slug moves the counter of its month by one, up to 99999, and no other month's |
| `Slugs.RevisionKeepsCounters` | src/rrxiv/server/papers/slug.py:53-79 | a revision under its head's slug moves no counter |
| `Slugs.MintsAreConsecutive` | src/rrxiv/server/papers/slug.py:53-79 | over every run of first versions and revisions, the numbers minted for a month are consecutive as long as they have five digits |
| `Slugs.RunKeepsLineages` | src/rrxiv/server/papers/slug.py:82-100 | over every such run each slug in use keeps exactly one head |
| `Slugs.CandidatesSupersedeAlike` | src/rrxiv/server/papers/slug.py:108-115 | within a slug, being superseded by a candidate is being superseded by any stored paper |
| `Slugs.HeadsAgree` | src/rrxiv/server/papers/slug.py:102-126 | in every reachable store each slug in use has one head; the lookup returns it |
| `Slugs.FindPaperBySlugMeans` | src/rrxiv/server/papers/slug.py:102-126 | in any store, forked or not, a slug in use is looked up to a head, of several heads to one submitted last, and without a head to a paper submitted last |
| `Slugs.NewestMeans` | src/rrxiv/server/papers/slug.py:116-126 | of several papers submitted last, the first one stored is picked |
| `Slugs.ClaimOwnerKeyMeans` | src/rrxiv/server/papers/slug.py:27-41 | claims are kept under their paper's slug, or under its id where it has none |
| `Slugs.ListingShowsHead` | src/rrxiv/server/papers/router.py:104-114 | the default listing shows exactly the head among the papers of a slug |
| `Slugs.StatisticsCountHead` | src/rrxiv/server/stats/pulse.py:147-160 | the statistics' head ids contain exactly the head's id among the papers of a slug |
| `Slugs.PaperStore.AddPaper` | src/rrxiv/server/store/memory.py:97-98 | a known id is replaced in place, a new one goes to the end |
| `Slugs.PaperStore.SubmitFirst` | src/rrxiv/server/papers/slug.py:53-79 | for every month, exhausted or not: adds a first version under the next number, which no stored paper has and which keeps one head per slug if and only if the month is not exhausted; moves the month's counter up to 99999 and no other |
| `Slugs.PaperStore.Revise` | src/rrxiv/server/papers/slug.py:82-100 | revising a head under its slug makes the revision the head in its place, keeps one head per slug and moves no counter |
| `Slugs.FirstKeepsLineages` | src/rrxiv/server/papers/slug.py:82-100 | adding a first version under an unused slug keeps distinct ids, backward links within a slug and one head per slug |
| `Slugs.FirstKeepsLineagesIff` | src/rrxiv/server/papers/slug.py:82-100 | adding a first version keeps one head per slug if and only if no stored paper has its slug |
| `Slugs.RevisionKeepsLineages` | src/rrxiv/server/papers/slug.py:82-100 | so does adding a revision of a head |
| `Replication.QuorumIsLeastAsked` | src/rrxiv/server/claims/replication.py:93-127 | exact topics win over their families, among several the least demanding one decides, and without any the quorum is 3 |
| `Replication.TableMeans` | src/rrxiv/server/claims/replication.py:37-56 | which topics ask for 1, 2, 3 and 5 replications |
| `Replication.QuorumForClaimMeans` | src/rrxiv/server/claims/replication.py:82-128 | the topics that count are those of the paper named with the claim, or else of the one its id names by slug or by id; without any the quorum is 3 |
| `Replication.DeriveMeans` | src/rrxiv/server/claims/replication.py:179-248 | when each status is given: by a retraction that nothing supersedes and its creator has not lifted; by the stored status without replications; otherwise by the numbers of contradicting, supporting, fresh supporting and partial ones that nothing supersedes |
| `Replication.ShownStatusMeans` | src/rrxiv/server/claims/replication.py:250-266 | a claim with an id is returned with the derived status and otherwise as stored |
| `Replication.OwnerOfSlugAndLabel` | src/rrxiv/server/claims/replication.py:59-79 | an id made of a slug and any label leads back to the slug, colons in the label included |
| `Replication.OwnerOfIdAndLabel` | src/rrxiv/server/claims/replication.py:59-79 | an id made of a colon-free paper id other than the scheme name and any label leads back to the paper id |
| `Replication.OrderDoesNotMatter` | src/rrxiv/server/claims/replication.py:179-247 | logs with the same annotations in any order give the same status |
| `Replication.SupportNeverLowers` | src/rrxiv/server/claims/replication.py:201-247 | once a claim has an effective replication, a new supporting one never lowers untested < partial < replicated, never creates contradicted and never changes retracted |
| `Replication.FirstSupportLowersIff` | src/rrxiv/server/claims/replication.py:205-247 | the first supporting replication lowers a status if and only if the claim is not retracted, was authored as replicated and the replication does not meet the quorum alone |
| `Replication.ContradictionNeverRaises` | src/rrxiv/server/claims/replication.py:205-247 | a new contradicting replication makes a status contradicted or leaves it as it is |
| `Replication.LiftingUndoesRetraction` | src/rrxiv/server/claims/replication.py:146-203 | a new retraction retracts its claim and no other; the same identity lifting it restores every status |
| `Replication.DocumentedStatusIff` | src/rrxiv/server/claims/replication.py:7-8 | the derived status is the documented one, in which only retractions by the paper's authors count, if and only if an author's retraction is effective, none is, or the stored status is retracted and stands |
| `Replication.StrangersRetractionCounts` | src/rrxiv/server/claims/replication.py:200-210 | a new retraction by someone who is no author retracts every claim that was not retracted, while the documented status stays what it was |
| `Replication.ComputeStats` | src/rrxiv/server/papers/projection.py:69-162 | the counters are the numbers of own claims of each status and add up with the retracted ones; the paper status follows from them, from paper retractions and from whether anything was said |
| `Replication.SameStatusOnBothPaths` | src/rrxiv/server/claims/replication.py:250-265 | for an id that names its paper, the status in the counts is the one the claim is returned with |
| `Replication.ListingShowsCounts` | src/rrxiv/server/papers/router.py:235-240 | claims whose ids name their paper are counted as their listing shows them |
| `Replication.CountsMatchListing` | src/rrxiv/server/papers/projection.py:69-93 | when a paper's claims are named after its owner key and a label, its counts equal those of the statuses in its claim listing; the key is its slug, or else its id |
| `Threads.SlugPapersAllLookAlike` | src/rrxiv/server/annotations/threads.py:17-33 | everything on a slug-keyed paper but the paper itself is taken to belong to 'rrxiv', which no slug paper is |
| `Threads.ReplyToOwnSlugPaperRefused` | src/rrxiv/server/annotations/threads.py:70-87 | a reply on a claim of a slug-keyed paper to a note on that paper itself is refused |
| `Threads.ReplyAcrossSlugPapersAccepted` | src/rrxiv/server/annotations/threads.py:70-87 | a reply on a section of one slug-keyed paper to a note on a section of any other is accepted |
| `Threads.PaperIdIsReadIff` | src/rrxiv/server/annotations/threads.py:17-33 | what stands before the first colon of a claim, section or figure is the id of its paper if and only if that id has no colon |
| `Threads.AttachedIsReadIff` | src/rrxiv/server/annotations/threads.py:17-33 | a note attached to an annotation is taken to be on a paper without a colon in its id if and only if the id of the annotation continues that id with a colon, wherever the annotation is |
| `Threads.SamePaperRuleIff` | src/rrxiv/server/annotations/threads.py:36-87 | among papers whose ids have a first segment the check tells notes on different papers apart from notes on the same one, annotations resolved, if and only if none of the ids has a colon and no note is attached to an annotation |
| `Threads.AnsweringKeepsEndsIff` | src/rrxiv/server/annotations/threads.py:36-105 | making a note answer b keeps all chains of replies ending if and only if following replies from b does not lead to it |
| `Threads.ReplyIsValidMeans` | src/rrxiv/server/annotations/threads.py:36-105 | the reply check passes exactly when the note answers nothing, or a stored other note, no two different papers are read off the targets, and two claims are the same |
| `Threads.StoringKeepsEndsIff` | src/rrxiv/server/annotations/threads.py:36-105 | storing a note that passed the checks, under a new id or over an old one, keeps all chains ending if and only if the chain from what it answers does not come by its id |
| `Threads.NewNoteKeepsThreads` | src/rrxiv/server/annotations/threads.py:36-105 | with a new id it does; every reply answers a stored note, on the same claim if both are on claims and on the same paper if neither is attached to an annotation and neither paper id has a colon |
| `Threads.ThreadHasRoot` | src/rrxiv/server/annotations/threads.py:36-105 | following replies from any stored note ends at a stored note that answers nothing |
| `Threads.ThreadStaysOnOneClaim` | src/rrxiv/server/annotations/threads.py:90-105 | a thread whose notes are all on claims is on one claim |
| `Threads.ThreadStaysOnOnePaper` | src/rrxiv/server/annotations/threads.py:70-87 | a thread whose notes are all on papers without colons in their ids, or on their claims, sections and figures, is on one paper |
| `AnnotationWrites.AnnotationStore.AddAnnotation` | src/rrxiv/server/store/memory.py:138-139 | writes the note under its id and keeps the insertion order of a known id |
| `AnnotationWrites.AnnotationStore.CreateAnnotation` | src/rrxiv/server/annotations/router.py:307-421 | anonymous identities, replays, key conflicts and every check of the cascade get their status, and the store changes only for 201 |
| `AnnotationWrites.AnnotationStore.CreateAnnotationsBulk` | src/rrxiv/server/annotations/router.py:154-303 | its own copy of the cascade has the same effect as posting the items one after the other; more than 100 items or no list change nothing |
| `AnnotationWrites.PostMeans` | src/rrxiv/server/annotations/router.py:346-394 | a note gets 201 exactly when it has a creator, fits the schema, names a known claim of the right shape or a known paper if it names one, and keeps the reply rule; 400, 422 and 404 have exact conditions of their own; only 201 changes the store |
| `AnnotationWrites.IsClaimIdMeans` | src/rrxiv/server/annotations/router.py:51-51 | the shape of a claim id: name characters, a colon, and name characters or colons |
| `AnnotationWrites.SubmitMeans` | src/rrxiv/server/annotations/router.py:332-421 | a request with a new idempotency key is answered as without one, and its answer is kept exactly when it was accepted |
| `AnnotationWrites.RunStoresKnownTargets` | src/rrxiv/server/annotations/router.py:375-394 | after any run every note that is new or changed names a claim or paper, if it names one, that was known when the note was stored |
| `AnnotationWrites.OneResponseEach` | src/rrxiv/server/annotations/router.py:203-213 | every item gets one response, and an item that is no object gets 422 |
| `AnnotationWrites.BulkActsLikeSingles` | src/rrxiv/server/annotations/router.py:154-303 | a bulk request leaves the store as single requests with its object items would and answers each alike |
| `AnnotationWrites.RunKeepsThreads` | src/rrxiv/server/annotations/router.py:154-421 | over any run of single and bulk requests with new ids, threads end, replies answer stored notes, on the same claim if both are on claims and on the same paper if neither is attached to an annotation and neither paper id has a colon |
| `AnnotationWrites.RepostingCanCloseACycle` | src/rrxiv/server/annotations/router.py:307-421 | for all notes on one stored paper that the schema takes: posting a, its answer b, and a again as an answer to b gives 201 three times and closes a cycle |
| `AnnotationWrites.AttachedReplyChangesPaper` | src/rrxiv/server/annotations/threads.py:70-87 | for any two stored papers, colons or not: a note on each and a third note, attached to the first and answering the second, are each accepted with 201, and the thread leads from one paper to the other |
| `AnnotationWrites.EmptyStoreHasSoundThreads` | src/rrxiv/server/store/memory.py:26-27 | such runs can start from the empty store |
| `AnnotationWrites.RunKeepsEntries` | src/rrxiv/server/annotations/router.py:407-419 | no run changes an idempotency entry once it exists |
| `AnnotationWrites.ReplayReturnsFirstResponse` | src/rrxiv/server/annotations/router.py:340-353 | after any run, repeating an accepted key with the same body changes nothing and returns the first response; with another body it changes nothing and is refused with 409 |
| `AnnotationWrites.RunKeepsOrder` | src/rrxiv/server/store/memory.py:138-145 | after any run the insertion order lists every stored id exactly once |
| `AnnotationWrites.DirectRepliesOldestFirst` | src/rrxiv/server/annotations/threads.py:108-115 | each direct reply is listed exactly once and nothing else is; no reply is followed by one with a smaller time stamp, or with the same one and a smaller id, at the first differing character |
| `IsoWeeks.IsoWeekMeaning` | src/rrxiv/server/stats/pulse.py:576-580 | the calendar's week computation puts a day into the ISO year whose weeks it falls in and numbers the week from that year's first Monday |
| `IsoWeeks.YearsAreGregorian` | src/rrxiv/server/stats/pulse.py:576-580 | years begin on day 1 and have 366 days when they can be divided by 4 and not by 100, or by 400 |
| `IsoWeeks.KnownWeeks` | src/rrxiv/server/stats/pulse.py:576-580 | the weeks of 1 January 1970, 3 January 2021 and 30 December 2024 |
| `IsoWeeks.IsoWeekIsMondayWeek` | src/rrxiv/server/stats/pulse.py:576-580 | two days have the same ISO year and week if and only if they lie in the same week from Monday to Sunday, across year ends |
| `IsoWeeks.WeekTextInjective` | src/rrxiv/server/stats/pulse.py:580-580 | the padded key determines year and week |
| `IsoWeeks.WeekTextMeans` | src/rrxiv/server/stats/pulse.py:580-580 | the key has four digits for the year, -W and two for the week |
| `IsoWeeks.WeekKeyIsWeek` | src/rrxiv/server/stats/pulse.py:576-580 | instants have the same key if and only if they lie in the same week |
| `Cohorts.Collect` | src/rrxiv/server/stats/pulse.py:604-632 | the loop over all records leaves each identity's earliest write and, per week and kind, the identities seen from the cutoff on |
| `Cohorts.CountsMeans` | src/rrxiv/server/stats/pulse.py:620-632 | only dated writes of researchers and agents count, and none of excluded identities |
| `Cohorts.CountFirstWrites` | src/rrxiv/server/stats/pulse.py:634-636 | each week is counted with the identities whose earliest write falls in it, and weeks without any are left out |
| `Cohorts.DisplayedWeeks` | src/rrxiv/server/stats/pulse.py:638-653 | the eight weeks up to now, oldest first, pairwise different, so removing duplicates removes none |
| `Cohorts.CutoffTruncatesNothing` | src/rrxiv/server/stats/pulse.py:608-618 | in a displayed week the cutoff hides nobody |
| `Cohorts.ComputeCohorts` | src/rrxiv/server/stats/pulse.py:583-674 | first-write counts and, for each of the eight weeks, the exact number of distinct identities of a kind active in that whole week |
| `Cohorts.FirstSeenIsEarliest` | src/rrxiv/server/stats/pulse.py:610-613 | the map holds exactly the identities that count, each with its earliest write |
| `Cohorts.RecordOrderDoesNotMatter` | src/rrxiv/server/stats/pulse.py:620-636 | the order of the records changes none of the results |
| `Cohorts.FirstWritesAddUp` | src/rrxiv/server/stats/pulse.py:634-636 | the first-write counts of all weeks add up to the number of distinct identities that are not excluded |

## Left out

- White space, digits and line breaks are the ASCII ones, except that `$` in a pattern also matches before a final line break, as it does in the code; Unicode white space, Unicode digits, underscores in integers and other line separators are not modelled.
- Lower-casing is that of ASCII letters; no other character lower-cases to one that occurs in the quorum table, and the author listing needs no more for its example.
- The interpreter's recursion limit: the depth-first search and the include expansion may recurse as deep as the graph.
- JSON: a cursor's JSON text is an abstract pair of functions that round-trip; annotations and papers carry only the fields the modelled code looks at.
- The `_safe_key` fallback for keys of mixed types: keys are sequences of strings.
- The edit script of a word diff comes from `difflib`; `WordDiff.Hunks` takes any script that tiles both texts with equal blocks that agree.
- Source locations in a revision diff are compared by equality; abstract, topics and the word diffs attached to a modified claim are not part of it.
- Float parsing in claim keys is an abstract function; pydantic's schema check of annotations is an abstract predicate; body hashes are compared, not computed, so two bodies with one hash count as the same.
- Random ids and clocks are parameters. Instants are microseconds in UTC; time stamps with other offsets, whose calendar week is that of their own offset, are not modelled.
- Path arithmetic of includes: which file an argument names is an abstract function of the including file and the argument. Two spellings of one file are two files to the code and to the model.
- Environments are identified by their position, as their dataclass equality would only merge identical ones.
- The papers a store lists are a sequence with distinct ids; updating a paper in place other than by `AddPaper`, deleting, and seeding are not modelled.
- Clearing the corpus, token and agent records, sign-in, signatures (RFC 9421), metrics, logging and templates.
- The pylatexenc walk over TeX, BibTeX, the text cleaner, section and author assembly, figure captions.
- The SQLite store, snapshots, search, the TTL cache, the retry budget and the command line.
- EvidencePairing.DocumentedFallbackIff: is about documents that label no evidence; which claims count as unpaired where labelled and unlabelled evidence are mixed, the documentation leaves open.
