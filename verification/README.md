# Verified model of PARTHA's intelligence core

PARTHA turns a repository revision into a sealed graph and answers queries about it.
This project models the parts of its backend where a mistake would be silent, and
proves what they promise over every input, every run and every reachable state:
canonical content and the bytes behind the graph hash, the two bounded graph
searches, refresh-token families, the JSON scanner, the lineage backfill, dependency
merging, the purge of failed snapshots, the rate limiter, lexical binding scopes and
the origins of literal URLs.

`dafny verify dfyconfig.toml` checks everything. One module per file:

| modules | part of the system |
|---|---|
| `Order`, `StableSort`, `Words`, `RecordOrder`, `Chars`, `Encoding`, `Compose` | texts, tuple order, stable sorting, concatenation, UTF-8 and UTF-16 |
| `Json`, `Canonical`, `MappingOrder` | canonical JSON after RFC 8785 |
| `Scan`, `Lexemes`, `Parse`, `MemberLines` | the JSON scanner that reports key lines |
| `CodecStandards` | the codecs against the RFCs they follow |
| `RepoPath`, `Evidence`, `References`, `Edges`, `EdgeUnion`, `Records`, `RecordShape`, `RecordFields`, `GraphDocument`, `NormalFacts`, `GraphFacts`, `DocumentLaws` | the document behind the graph hash |
| `Ordinals` | observation ordinals and identity documents |
| `LineageId`, `Lineage`, `Backfill` | the lineage migration |
| `Impact`, `ImpactSearch`, `GuardPruning`, `GuardOrder` | graph searches |
| `RefreshTokens`, `RefreshRaces` | refresh-token families, as whole requests and as interleaved steps |
| `Retention` | purging facts under cascading foreign keys |
| `Dependencies`, `DependencyColumns`, `DependencyLaws`, `DependencyOrder` | merging dependency facts |
| `RateLimit`, `BindingScope`, `HttpDestination`, `WrittenUrls` | limiter, scopes, origins |
| `Witnesses` | concrete inputs at which a promise fails |

Code that changes things step by step is a method or a class (`JsonTokens`,
`ConsolidateEdges`, `Migration`, `ImpactDirection`, `AuthService`, `FactStore`,
`MemoryRateLimitStore`, `Scope`, and the loops of `MergeDependencyFacts`), proved
against a function or a predicate; the laws are lemmas about those. Code made of
expressions is a function. A raised exception is `None`. A text is a sequence of code
points; bytes are numbers too.

## Where the code and its promises part

Each of these has a lemma or method at a concrete input and a theorem that says exactly
when the promise holds.

- `order_evidence` normalizes paths again when a repeated edge is absorbed. A path such
  as `./C:x` normalizes to `C:x`, which is then rejected as a drive, so an edge that
  consolidates alone raises when it is repeated (`RepoPath.DriveExample`,
  `Witnesses.RepeatedEdgeRaises`). Exactly when: `EdgeUnion.DuplicateExact` for one edge,
  `DocumentLaws.SameHashExactly` for the hashed bytes.
- `_consolidate_edges` compares four fields only. Duplicates that differ in an endpoint
  kind are hashed to different bytes in different orders (`Witnesses.KindsNeeded`).
  Exactly when order is forgotten: `EdgeUnion.OrderFreeExactly` for consolidation, and
  `DocumentLaws.EdgeOrderExactly` for the hashed bytes, where distinct triples are taken
  to stay distinct under NFC, as they do when stable keys are stored normalized.
- `assign_ordinals` groups raw texts, while identity documents are normalized to NFC.
  Two spellings of one stable key get the same identity (`Witnesses.IdentitiesCollide`).
  Exactly when documents are distinct: `Ordinals.DistinctExactly`.
- The claim of a refresh token tests `used_at` only, and `_revoke_family` selects before
  it writes. Under interleaving a completed logout does not always end a family
  (`RefreshRaces.ClaimOutlivesLogout`, `RefreshRaces.SuccessorEscapesWrite`). Exactly when
  a family is closed: `RefreshRaces.ClosedExactly`.
- Dependency files that tie in the member order are merged in file order
  (`DependencyOrder.OrderShowsWithinOneSource`). Exactly when file order is forgotten:
  `DependencyOrder.FileOrderExactly`, when what tying files contribute commutes. One
  entry per producer and source path is enough (`DependencyOrder.OneEntryCommutes`) and
  not necessary.
- `bind` drops a name that is declared nonlocal all the way up to the module
  (`BindingScope.DroppedBinding`). Exactly when: `BindingScope.BindThenResolve`. The
  extractor never meets it: it makes every module scope without nonlocal names
  (apps/backend/app/extraction/python.py:687, 956, 1212), and then nothing is lost
  (`BindingScope.PlainModuleLosesNothing`).
- The comment that `|` cannot appear in an origin is not so: `http://a|b` keeps it,
  and its referent does not parse back (`HttpDestination.BarInOrigin`). Exactly when: the
  delimiter is in the normalized host (`HttpDestination.BarInOriginExactly`), and a
  description parses back when it is in neither host nor path
  (`HttpDestination.ParsesBackExactly`).
- An origin drops the brackets of an IPv6 host, so two services can share an origin
  (`HttpDestination.BracketsCollide`). Exactly when two authorities share an origin:
  `HttpDestination.OriginsCollideExactly`. Two different services do if and only if one host
  spells the other host and its port. Without a colon in the hosts origins agree exactly
  when the service is the same (`HttpDestination.OriginDecidesService`).

One promise is exceeded: the limiter admits at most `2 * limit - 1` requests in any
half-open window length, not twice the budget (`RateLimit.IntervalBudget`, met for every
limit and window length by `RateLimit.BoundIsMet`).

## Model

| member | source | states |
|---|---|---|
| `Encoding.BigEndianOrder` | apps/backend/app/intelligence/canonical.py:117-122 | comparing big-endian UTF-16 bytes is comparing code units, as section 3.2.3 of RFC 8785 asks, and the bytes determine the units |
| `Encoding.Utf16BeInjective` | apps/backend/app/intelligence/canonical.py:121 | two encodable keys with equal sort bytes are equal, so the key order is strict |
| `Encoding.Utf8Injective` | apps/backend/app/intelligence/canonical.py:126 | the UTF-8 bytes determine the text |
| `CodecStandards.Utf8Exactly` | apps/backend/app/intelligence/canonical.py:126 | the one to four bytes of a character carry the marker bits and the code point that section 3 of RFC 3629 tabulates |
| `CodecStandards.Utf16Exactly` | apps/backend/app/intelligence/canonical.py:121 | a character is one code unit or the surrogate pair of section 2.2 of RFC 2781 that stands for it |
| `CodecStandards.ScalarExactly` | apps/backend/app/intelligence/canonical.py:121-126 | what can be encoded is every code point but the surrogates |
| `Json.NormalizeIdempotent` | apps/backend/app/intelligence/canonical.py:69-93 | a normalized value is a fixed point of normalization |
| `CodecStandards.NormalizedIsNormal` | apps/backend/app/intelligence/canonical.py:69-93 | a normalized value has every text and key in normal form, distinct keys, JSON types only and integers a double holds exactly |
| `CodecStandards.NormalIsKept` | apps/backend/app/intelligence/canonical.py:69-93 | such a value is kept as it is |
| `Json.CanonDecidesSame` | apps/backend/app/intelligence/canonical.py:117-122 | putting every mapping in key order gives equal values exactly for values equal up to mapping order |
| `Canonical.SerializeRenders` | apps/backend/app/intelligence/canonical.py:101-123 | the serializer prints the tokens of the value in canonical key order, nothing more and nothing less |
| `Canonical.DecodeEscape` | apps/backend/app/intelligence/canonical.py:110-114 | reading an escaped string gives back the string (the escapes of section 3.2.2.2 of RFC 8785) |
| `CodecStandards.DecodeSpelled` | apps/backend/app/extraction/structured.py:104-107 | every string literal that section 7 of RFC 8259 allows, with short escapes, hexadecimal escapes in either case and surrogate pairs, is decoded to what it spells |
| `CodecStandards.DecodeOnlySpelled` | apps/backend/app/extraction/structured.py:104-107 | and only such literals are decoded; any other keeps its raw text |
| `CodecStandards.MembersInOrder` | apps/backend/app/intelligence/canonical.py:117-122 | canonical members stand in the order of the UTF-16 code units of their keys |
| `CodecStandards.SerializeExample` | apps/backend/app/intelligence/canonical.py:101-123 | one object with every kind of value, printed without white space and with sorted keys |
| `Canonical.LexemesDecideValue` | apps/backend/app/intelligence/canonical.py:101-123 | the printed tokens are a prefix code: they determine the value and where it ends |
| `Canonical.SerializedTokens` | apps/backend/app/extraction/structured.py:75-117 | the scanner reads a serialized value back as exactly the tokens of its canonical form, all on line 1 |
| `Canonical.TokensDecideSame` | apps/backend/app/extraction/structured.py:75-117 | scanner tokens of two serialized values agree if and only if the values are equal up to mapping order |
| `Canonical.EncodeDecidesSame` | apps/backend/app/intelligence/canonical.py:96-128 | canonical bytes are equal if and only if the normalized values are equal up to mapping order |
| `MappingOrder.NormalizeRespectsSame` | apps/backend/app/intelligence/canonical.py:69-93 | mapping order changes neither whether normalization raises nor the value it gives |
| `MappingOrder.MappingOrderForgotten` | apps/backend/app/intelligence/canonical.py:96-128 | values equal up to mapping order have the same canonical bytes or are both rejected |
| `Scan.SkipString` | apps/backend/app/extraction/structured.py:91-108 | the inner loop over a string literal stops where the literal ends and counts its newlines |
| `Scan.SkipOther` | apps/backend/app/extraction/structured.py:112-116 | the inner loop over a bare word stops at the first delimiter |
| `Scan.JsonTokens` | apps/backend/app/extraction/structured.py:75-117 | the scanning loops, which always end, compute the recursive token list |
| `Lexemes.TokensOfRendered` | apps/backend/app/extraction/structured.py:75-117 | on every well-formed text, where white space is space, tab, line feed and carriage return and the structural characters are the six of section 2 of RFC 8259, the tokens are those of its lexemes, each on one plus the newlines before it |
| `Lexemes.GoodByScanner` | apps/backend/app/extraction/structured.py:86-113 | the scanner's tests for white space, punctuation and bare words are exactly the grammar's |
| `Parse.JsonParse` | apps/backend/app/extraction/structured.py:120-145 | the recursive reader with its loops computes the recursive parse, with a moving position that always advances |
| `Parse.ParseSpelled` | apps/backend/app/extraction/structured.py:120-145 | tokens that spell a value are read to that value's meaning and the reader stops right after it, never off the tokens |
| `Parse.LastKeyLine` | apps/backend/app/extraction/structured.py:126-135 | a repeated key keeps the line and the value of its last occurrence |
| `Parse.OnlyWrittenKeys` | apps/backend/app/extraction/structured.py:126-135 | the reported keys are exactly the written ones |
| `Parse.EntryToken` | apps/backend/app/extraction/structured.py:126-135 | entry i of an object stands at a token position computed from the widths of the entries before it |
| `MemberLines.JsonObjectMemberLines` | apps/backend/app/extraction/structured.py:56-72 | the section map is that of the parsed document |
| `MemberLines.DocumentParses` | apps/backend/app/extraction/structured.py:56-145 | every well-formed text is scanned and read completely |
| `MemberLines.TokenLineExact` | apps/backend/app/extraction/structured.py:75-108 | token number p opens at its own offset, the length of what is rendered before its lexeme, and a string token's line is one plus the newlines before that offset |
| `MemberLines.MemberWritten` | apps/backend/app/extraction/structured.py:56-145 | each member of each section stands at its own token and opens at its own offset, both functions of its place |
| `MemberLines.MemberLinesExact` | apps/backend/app/extraction/structured.py:56-145 | the line reported for a member is one plus the newlines before the opening quote of that key's last occurrence in its section's last occurrence |
| `MemberLines.MembersInOrder` | apps/backend/app/extraction/structured.py:126-135 | later occurrences open further on in the text, so the last one reported is the last one written |
| `MemberLines.ReportedExactly` | apps/backend/app/extraction/structured.py:56-72 | a section is reported exactly when its last occurrence is an object, and then with exactly that object's keys |
| `MemberLines.OnlySections` | apps/backend/app/extraction/structured.py:56-72 | nothing that is not written is reported |
| `RepoPath.NormalizeRepoPath` | apps/backend/app/intelligence/canonical.py:189-220 | rejects exactly on a drive prefix, a leading separator or a segment prefix with more `..` than names; otherwise returns the names a directory walk ends with |
| `RepoPath.ResolveIsWalk` | apps/backend/app/intelligence/canonical.py:210-220 | the stack ends with what the walk's lowest point left of it and the names that survive |
| `RepoPath.NormalizePathIsWalk` | apps/backend/app/intelligence/canonical.py:189-220 | the same for the whole function: when it rejects, and the path it returns |
| `RepoPath.ResultSegments` | apps/backend/app/intelligence/canonical.py:210-220 | a result has no empty, `.` or `..` segment and no separator inside one |
| `RepoPath.MiddleSegment` | apps/backend/app/intelligence/canonical.py:210-220 | between two names `.` and an empty segment change nothing, `..` takes back the first name, and any other segment is kept |
| `RepoPath.SeparatorsAndRoot` | apps/backend/app/intelligence/canonical.py:204-220 | a backslash separates like a slash; a path from the root or out of it is rejected |
| `RepoPath.FixedPoint` | apps/backend/app/intelligence/canonical.py:189-220 | a result normalizes to itself if and only if it does not begin with a letter and a colon |
| `RepoPath.DriveExactly` | apps/backend/app/intelligence/canonical.py:204-205 | a letter and a colon in front are rejected, with or without more; another character and a colon are a name |
| `RepoPath.DriveExample` | apps/backend/app/intelligence/canonical.py:204-205 | `./C:x` normalizes to `C:x`, which is rejected |
| `RecordOrder.OrderBy` | apps/backend/app/intelligence/canonical.py:488-499 | the loop that fills `seen` and sorts keeps the first item of each encoding, in key order with the bytes as tie-breaker |
| `RecordOrder.OrderedBySet` | apps/backend/app/intelligence/canonical.py:488-499 | when bytes identify items, ordering depends only on the set of items |
| `RecordOrder.OrderedByBytes` | apps/backend/app/intelligence/canonical.py:488-499 | in any case the list of encodings depends only on the set of encodings |
| `Evidence.OrderEvidenceRecords` | apps/backend/app/intelligence/canonical.py:475-514 | `order_evidence` with its loops: canonical records, without repeats, in order, or an exception |
| `Evidence.BytesIdentify` | apps/backend/app/intelligence/canonical.py:488-499 | the tie-breaking bytes determine an evidence record |
| `RecordFields.EvidenceFields` | apps/backend/app/intelligence/canonical.py:475-485 | each of the six fields of an evidence record holds the column it is named after |
| `RecordFields.EvidenceDefaults` | apps/backend/app/intelligence/canonical.py:475-485 | the path is normalized, an empty granularity becomes `span`, and the other columns are kept |
| `RecordFields.EvidenceInOrder` | apps/backend/app/intelligence/canonical.py:502-514 | ordered evidence stands by path, then lines as numbers, granularity, extractor and version |
| `Evidence.OrderEvidenceBySet` | apps/backend/app/intelligence/canonical.py:502-514 | order and repetition of evidence never matter |
| `Evidence.PrepareAgain` | apps/backend/app/intelligence/canonical.py:475-485 | a canonical record is unchanged by a second pass, or raises if its path reads as a drive |
| `Evidence.MergeEvidence` | apps/backend/app/intelligence/canonical.py:502-514 | ordering two ordered lists together is ordering the union, unless a path reads as a drive |
| `References.SortReferences` | apps/backend/app/intelligence/canonical.py:355-378 | `sort_derived_from` with its validation loop |
| `RecordFields.SoundExactly` | apps/backend/app/intelligence/canonical.py:364-376 | a reference is accepted if and only if its kind is one of the four and its identity is not empty and can be encoded |
| `RecordFields.ReferenceFields` | apps/backend/app/intelligence/canonical.py:350-352 | each of the four kinds names its identity by its own field |
| `RecordFields.ReferencesInOrder` | apps/backend/app/intelligence/canonical.py:355-378 | sorted references stand observations first, then nodes, edges and assertions, each kind by identity |
| `References.SortDerivedFromBySet` | apps/backend/app/intelligence/canonical.py:355-378 | order and repetition of references never matter |
| `References.MergeDerivedFrom` | apps/backend/app/intelligence/canonical.py:355-378 | sorting two sorted lists together is sorting the union |
| `Edges.CanonicalEdge` | apps/backend/app/intelligence/canonical.py:535-548 | the canonical edge record, or an exception exactly on unusable evidence or references |
| `Edges.Absorb` | apps/backend/app/intelligence/canonical.py:604-619 | one turn of the loop keeps each record equal to the first edge of its triple with the union of all evidence and derivations, and raises exactly when that is impossible |
| `Edges.ConsolidateEdges` | apps/backend/app/intelligence/canonical.py:594-620 | the mutated dictionary ends with one such record per triple, in order of first appearance; it raises exactly on an unusable record, a field conflict or a repeated drive-like path |
| `EdgeUnion.ConsistentExactly` | apps/backend/app/intelligence/canonical.py:594-620 | consolidation succeeds if and only if all evidence and references are accepted, edges with the same subject, predicate and object agree in identifier, truth class, producer and version, and none of those that repeat shows a drive-like path |
| `EdgeUnion.ConsolidatedTells` | apps/backend/app/intelligence/canonical.py:604-620 | the record of an edge keeps its subject, predicate, object and the four agreed columns, and holds exactly the prepared evidence and references of all edges with the same subject, predicate and object |
| `EdgeUnion.UnionDetermines` | apps/backend/app/intelligence/canonical.py:594-620 | splitting evidence and derivations over any duplicates in any order gives the same records |
| `EdgeUnion.OrderFreeExactly` | apps/backend/app/intelligence/canonical.py:604-619 | consolidation of consistent edges gives the same records in every order if and only if the edges of each triple agree in kind |
| `EdgeUnion.UnionRaisesTogether` | apps/backend/app/intelligence/canonical.py:604-619 | without drive-like paths, edges with the same content raise together or not at all |
| `EdgeUnion.PermutedRaisesTogether` | apps/backend/app/intelligence/canonical.py:604-619 | edges raise in every order or in none |
| `EdgeUnion.DuplicateExact` | apps/backend/app/intelligence/canonical.py:604-619 | repeating an edge is harmless if and only if no evidence of its triple has a drive-like path |
| `Witnesses.RepeatedEdgeRaises` | apps/backend/app/intelligence/canonical.py:604-619 | an edge that consolidates alone and raises when written twice |
| `Records.OrderRecordList` | apps/backend/app/intelligence/canonical.py:488-499 | the same loop over built records |
| `Records.ArrayExactly` | apps/backend/app/intelligence/canonical.py:488-499 | two ordered arrays have the same canonical text if and only if they hold the same set of record texts |
| `RecordFields.NodeFields` | apps/backend/app/intelligence/canonical.py:517-532 | each field of a node record holds the column it is named after; name, language and properties are there only when the node has them |
| `RecordFields.EdgeRecordFields` | apps/backend/app/intelligence/canonical.py:535-548 | each field of an edge record holds the column it is named after |
| `RecordFields.AssertionRecordFields` | apps/backend/app/intelligence/canonical.py:551-563 | each field of an assertion record holds the column it is named after |
| `RecordFields.ObservationRecordFields` | apps/backend/app/intelligence/canonical.py:566-574 | each field of an observation record holds the column it is named after |
| `RecordFields.DiagnosticRecordFields` | apps/backend/app/intelligence/canonical.py:577-591 | each field of a diagnostic record holds the column it is named after, with the path normalized |
| `RecordFields.DocumentFields` | apps/backend/app/intelligence/canonical.py:679-689 | the hashed document names its four scalars, the producer set and the five arrays |
| `NormalFacts.NodeExactly` | apps/backend/app/intelligence/canonical.py:517-532 | two node records have the same canonical text, or both raise, if and only if the nodes agree in normalized kind, key, truth class, name and language, in ordered evidence, and in properties up to mapping order, or neither has a normal form |
| `NormalFacts.EdgeExactly` | apps/backend/app/intelligence/canonical.py:535-548 | the same for consolidated edges: identifier, both endpoints, predicate, truth class, producer, version, evidence and derivations |
| `NormalFacts.AssertionExactly` | apps/backend/app/intelligence/canonical.py:551-563 | the same for assertions, the value up to mapping order |
| `NormalFacts.ObservationExactly` | apps/backend/app/intelligence/canonical.py:566-574 | the same for observations, their ordinal and prepared evidence included |
| `NormalFacts.DiagnosticExactly` | apps/backend/app/intelligence/canonical.py:577-591 | the same for diagnostics, their span and details included |
| `RecordFields.NodeOrder` | apps/backend/app/intelligence/canonical.py:646-649 | nodes are sorted by normalized stable key |
| `RecordFields.EdgeOrder` | apps/backend/app/intelligence/canonical.py:650-653 | edges are sorted by normalized subject, predicate and object |
| `RecordFields.AssertionOrder` | apps/backend/app/intelligence/canonical.py:654-657 | assertions are sorted by normalized subject, predicate and identifier |
| `RecordFields.ObservationOrder` | apps/backend/app/intelligence/canonical.py:658-661 | observations are sorted by normalized identifier |
| `RecordFields.DiagnosticOrder` | apps/backend/app/intelligence/canonical.py:662-677 | diagnostics are sorted by eleven columns, an absent one read as empty or zero |
| `RecordFields.ArrayInOrder` | apps/backend/app/intelligence/canonical.py:488-499 | an array of the document holds normalized records, strictly increasing by sort key and then by bytes |
| `GraphFacts.HashDecidesFacts` | apps/backend/app/intelligence/canonical.py:623-690 | a hashed graph and another have the same bytes if and only if they have the same normalized scalars and producers and, for each of the five arrays, the same set of facts in normal form, column by column |
| `DocumentLaws.DocumentBySets` | apps/backend/app/intelligence/canonical.py:623-690 | permuting or repeating entries of any array, evidence and derivations inside them, or the mappings inside facts gives the identical bytes or the same failure, when the edges of each triple agree in kind and no path is drive-like |
| `DocumentLaws.SameHashExactly` | apps/backend/app/intelligence/canonical.py:594-690 | a graph with the same facts as a hashed one gets the same bytes if and only if no repeated triple of it shows a drive-like path |
| `DocumentLaws.PermutedDocument` | apps/backend/app/intelligence/canonical.py:623-690 | permuting all arrays never changes the hashed bytes, whatever the paths, when the edges of each triple agree in kind |
| `DocumentLaws.EdgeOrderExactly` | apps/backend/app/intelligence/canonical.py:594-690 | the hashed bytes forget the order of the edges if and only if the edges of each triple agree in kind once normalized |
| `Witnesses.KindsNeeded` | apps/backend/app/intelligence/canonical.py:611-617 | two duplicates that differ only in an endpoint kind are hashed to different bytes in the two orders |
| `Ordinals.AssignOrdinals` | apps/backend/app/extraction/base.py:90-120 | the loop gives each observation its place among its equals so far and changes nothing else |
| `Ordinals.OrdinalsIncrease` | apps/backend/app/extraction/base.py:90-120 | equal observations are numbered in source order |
| `Ordinals.EveryOrdinalGiven` | apps/backend/app/extraction/base.py:90-120 | a group of k is numbered with every number from 1 to k |
| `Ordinals.BytesDecideIdentity` | apps/backend/app/intelligence/canonical.py:311-347 | equal identity documents, of any two runs, come from equal extractors, revisions and schemas, equal normalized identities and equal ordinals |
| `Ordinals.IdentityDecidesBytes` | apps/backend/app/intelligence/canonical.py:311-347 | and those give equal documents |
| `RecordFields.IdentityFields` | apps/backend/app/intelligence/canonical.py:338-346 | each field of an identity document holds the column it is named after |
| `RecordFields.IdentityEvidenceFields` | apps/backend/app/intelligence/canonical.py:311-321 | its evidence holds the extractor, its version, the path and the lines |
| `Ordinals.DistinctExactly` | apps/backend/app/extraction/base.py:90-120 | the identity documents of one file and producer are pairwise distinct if and only if normalization merges no two grouping keys |
| `Witnesses.IdentitiesCollide` | apps/backend/app/extraction/base.py:90-120 | two observations that are grouped apart, both numbered 1, and identified by the same bytes |
| `LineageId.EncodedInjective` | apps/backend/alembic/versions/0013_lineage_expand.py:94-103 | the length-delimited encoding of a group key determines the key |
| `LineageId.EncodedExample` | apps/backend/alembic/versions/0013_lineage_expand.py:94-103 | lengths, colons and bars of one encoded key |
| `Lineage.ShaExactly` | apps/backend/alembic/versions/0013_lineage_expand.py:48 | a commit id is forty lower-case hexadecimal digits |
| `Lineage.RefExactly` | apps/backend/alembic/versions/0013_lineage_expand.py:49 | a ref is `refs/heads/` or `refs/tags/` and a non-empty name of letters, digits, dots, underscores, slashes and hyphens |
| `Lineage.FetchOrderForgotten` | apps/backend/alembic/versions/0013_lineage_expand.py:184-221 | the members of a group and their order do not depend on the fetch order |
| `Lineage.OldestFirst` | apps/backend/alembic/versions/0013_lineage_expand.py:219-220 | members stand in order of creation time, then id |
| `Lineage.OutcomeUnique` | apps/backend/alembic/versions/0013_lineage_expand.py:224-268 | what a run that does not raise makes of any earlier state is the same for all fetch orders |
| `Lineage.OutcomeFromBetween` | apps/backend/alembic/versions/0013_lineage_expand.py:250-259 | reconciling rows that an interrupted run left gives what that run would have made of its own start |
| `Lineage.RowAfterRun` | apps/backend/alembic/versions/0013_lineage_expand.py:233-259 | after a run a row that was found keeps all but its latest pointer and counter; a new row has its key, and the name and creation time of the oldest member; `latest` is the youngest |
| `Lineage.CrashSafe` | apps/backend/alembic/versions/0013_lineage_expand.py:224-268 | from whatever state a run starts, after any prefix of its writes a rerun in any fetch order ends where the undisturbed run does, both being runs that do not raise |
| `Lineage.NoNewConflict` | apps/backend/alembic/versions/0013_lineage_expand.py:136-143 | a rerun after any prefix of writes meets the unique index on owner, source and branch only if the first run met it |
| `Lineage.ConflictExactly` | apps/backend/alembic/versions/0013_lineage_expand.py:136-143 | a run can meet that index if and only if some resolvable repository without a lineage row finds its owner, canonical source and ref in another row |
| `Lineage.VerifiedExactly` | apps/backend/alembic/versions/0013_lineage_expand.py:271-334 | after a run from any state that does not raise the verifier passes if and only if that state had no lineage row of a wrong owner and no attached row that is not eligible |
| `Lineage.NumberedExactly` | apps/backend/alembic/versions/0013_lineage_expand.py:224-268 | in a verified state a repository's sequence is one more than the number of repositories of its group that are older by time and then id, the latest pointer names the youngest, `next_sequence` is one more than their number, and no other repository carries that lineage |
| `Lineage.SameLineageExactly` | apps/backend/alembic/versions/0013_lineage_expand.py:201-217 | in a verified state two repositories share a lineage if and only if both are GitHub imports of a commit on a named ref with a canonical source, and owner, source and ref are the same |
| `Backfill.FileRows` | apps/backend/alembic/versions/0013_lineage_expand.py:203-217 | the loop files each eligible row under its key in fetch order |
| `Backfill.EligibleGroups` | apps/backend/alembic/versions/0013_lineage_expand.py:184-221 | the groups are the eligible keys in order, each with its members sorted |
| `Backfill.Migration.WriteGroup` | apps/backend/alembic/versions/0013_lineage_expand.py:231-266 | the writes for one group raise if and only if it has no row and another row holds its owner, source and branch; otherwise, inserting its row or reconciling the one found, they leave its row and its members as a run does; no other group is touched |
| `Backfill.Migration.BackfillLineages` | apps/backend/alembic/versions/0013_lineage_expand.py:224-268 | from any state it raises if and only if some group without a row finds its owner, source and branch held by another row; otherwise the outcome is reached; and after every single write the state lies between |
| `Backfill.VerifyGroup` | apps/backend/alembic/versions/0013_lineage_expand.py:302-323 | the inner loop accepts exactly groups whose members are rows of the owner with the intended numbering |
| `Backfill.VerifyBackfill` | apps/backend/alembic/versions/0013_lineage_expand.py:271-334 | the verifier accepts exactly the verified states |
| `Impact.QueryIsChosen` | apps/backend/app/intelligence/query_service.py:902-944 | the ranked query returns exactly the least matching edge of each adjacent node, in canonical order |
| `Impact.ChosenUnique` | apps/backend/app/intelligence/query_service.py:908-921 | one canonical edge per adjacent node |
| `ImpactSearch.ImpactDirection` | apps/backend/app/intelligence/query_service.py:885-956 | the layered loop returns the first 100 steps of the uncapped search and reports the cap exactly when there are more |
| `ImpactSearch.RingIsDistance` | apps/backend/app/intelligence/query_service.py:901-954 | layer k holds exactly the nodes whose shortest walk over followed edges has length k |
| `ImpactSearch.FullIsBall` | apps/backend/app/intelligence/query_service.py:901-954 | the uncapped search names every node within the depth once and never the start |
| `ImpactSearch.ImpactExact` | apps/backend/app/intelligence/query_service.py:885-956 | against walks along `depends_on` and `imports` edges, from subject to object outbound and back inbound: the steps are distinct, each depth is the shortest distance, each edge is the first by subject, predicate, object, identifier and row that enters its node from one step nearer, steps come by depth and then in that order, the cap is reported if and only if more than 100 nodes lie within the depth, and otherwise none is missing |
| `ImpactSearch.DirectionsMirror` | apps/backend/app/intelligence/query_service.py:898-899 | a node is found inbound of another within a depth if and only if the other is found outbound of it within that depth |
| `ImpactSearch.DeeperExtends` | apps/backend/app/intelligence/query_service.py:885-956 | a larger depth only extends the step list |
| `GuardPruning.Explore` | apps/backend/app/analysis/authentication.py:263-283 | the breadth-first loop builds a tree of evidence-bearing calls rooted at the guard, closed under such calls and discovered in queue order, with the right parents and targets |
| `GuardPruning.WalkUp` | apps/backend/app/analysis/authentication.py:285-290 | the parent walk terminates and keeps the target and all its ancestors, and nothing not wanted |
| `GuardPruning.ReachableServiceModelEdges` | apps/backend/app/analysis/authentication.py:254-292 | the returned edges form a tree rooted at the guard, each is on the way to a classified symbol, every reachable classified symbol is covered, and every returned symbol is reached by a shortest chain |
| `GuardPruning.DepthIsLeast` | apps/backend/app/analysis/authentication.py:268-283 | no walk over evidence-bearing calls to a discovered symbol is shorter than its depth in the tree |
| `GuardPruning.LeadsToClassified` | apps/backend/app/analysis/authentication.py:285-292 | every returned edge leads on through returned edges to a service or model symbol |
| `GuardPruning.RootedAtGuard` | apps/backend/app/analysis/authentication.py:268-292 | every returned edge is reached from the guard through returned edges |
| `GuardPruning.CoversExactly` | apps/backend/app/analysis/authentication.py:254-292 | the classified symbols covered are exactly the reachable ones, the guard apart |
| `GuardPruning.EmptyExactly` | apps/backend/app/analysis/authentication.py:254-292 | nothing is returned if and only if no classified symbol but the guard is reachable |
| `GuardOrder.StorageOrderForgotten` | apps/backend/app/analysis/authentication.py:254-292 | the same calls stored in any order give the same edges in the same order |
| `RefreshTokens.AuthService.RevokeFamily` | apps/backend/app/auth/service.py:313-318 | the loop stamps exactly the unrevoked rows of the family |
| `RefreshTokens.AuthService.ClaimToken` | apps/backend/app/auth/service.py:260-271 | the claim wins exactly on an unused row and marks only that row |
| `RefreshTokens.AuthService.FinishRefresh` | apps/backend/app/auth/service.py:244-258 | after the read: rotate on a won claim, revoke the family on a lost one |
| `RefreshTokens.AuthService.RefreshToken` | apps/backend/app/auth/service.py:222-258 | an uninterrupted refresh makes exactly the specified change and succeeds exactly as specified |
| `RefreshTokens.AuthService.EndSession` | apps/backend/app/auth/service.py:273-287 | a logout revokes the family of a known token and does nothing otherwise |
| `RefreshTokens.AuthService.OpenSession` | apps/backend/app/auth/service.py:289-311 | a session adds the first token of a new family |
| `RefreshTokens.ServeKeeps` | apps/backend/app/auth/service.py:222-318 | every request keeps revocation all-or-none, and one unused token and one user per family |
| `RefreshTokens.EveryRunKeeps` | apps/backend/app/auth/service.py:222-318 | so does every run of requests |
| `RefreshTokens.LogoutEnds` | apps/backend/app/auth/service.py:273-287 | a logout ends the family of a known token |
| `RefreshTokens.ReplayEnds` | apps/backend/app/auth/service.py:229-237 | replaying a used, unexpired, unrevoked token fails and ends its family |
| `RefreshTokens.RefreshEndsExactly` | apps/backend/app/auth/service.py:222-258 | a refresh ends a live family if and only if its token is of that family, neither revoked nor expired, and used already or of an inactive user |
| `RefreshTokens.RotatedRows` | apps/backend/app/auth/service.py:244-271 | a refresh that succeeds marks its token used and adds one successor of the same user and family with the new lifetime; nothing else changes |
| `RefreshTokens.EndedRows` | apps/backend/app/auth/service.py:313-318 | ending a family stamps its unrevoked rows and leaves all others alone |
| `RefreshTokens.EndedForever` | apps/backend/app/auth/service.py:222-318 | after a family has ended no later refresh with any of its tokens ever succeeds |
| `RefreshTokens.LiveExactly` | apps/backend/app/auth/service.py:222-258 | some token of a family can be refreshed if and only if the family has not ended and its unused token is unexpired and its user active |
| `RefreshRaces.StepKeeps` | apps/backend/app/auth/service.py:222-318 | every interleaved step keeps one unused token and one user per family, single exchanges and the counts |
| `RefreshRaces.EveryInterleaving` | apps/backend/app/auth/service.py:222-318 | so does every interleaving of steps |
| `RefreshRaces.SingleWinner` | apps/backend/app/auth/service.py:222-271 | under arbitrary interleaving each token is exchanged at most once and a family's exchanges are its tokens minus one |
| `RefreshRaces.ClaimRows` | apps/backend/app/auth/service.py:244-271 | a claim that wins marks an unused row with the time of the read and issues one successor that expires after the lifetime counted from the claim |
| `RefreshRaces.WriteRows` | apps/backend/app/auth/service.py:313-318 | a write stamps exactly the rows that were selected, with the time the request began |
| `RefreshRaces.ClosedExactly` | apps/backend/app/auth/service.py:222-271 | a family can still be exchanged if and only if its unused token is unrevoked and unexpired or held by a request that passed its read |
| `RefreshRaces.RevocationCloses` | apps/backend/app/auth/service.py:313-318 | an undivided revocation closes the family for good if and only if no request under way holds its unused token |
| `RefreshRaces.RequestIsRun` | apps/backend/app/auth/service.py:222-318 | every uninterrupted request is one interleaving of the steps |
| `RefreshRaces.ClaimOutlivesLogout` | apps/backend/app/auth/service.py:260-287 | a logout that completes between read and claim leaves a family with all rows revoked that can still be exchanged |
| `RefreshRaces.SuccessorEscapesWrite` | apps/backend/app/auth/service.py:313-318 | a claim between select and write leaves an unrevoked successor beside a revoked token |
| `Retention.IntegrityAfter` | apps/backend/app/intelligence/retention.py:51-56 | referential integrity holds after every table |
| `Retention.ChildrenFirstPurges` | apps/backend/app/intelligence/retention.py:31-56 | with children before parents exactly the snapshot's facts are gone, and each is counted once |
| `Retention.CountsRightExactly` | apps/backend/app/intelligence/retention.py:31-33 | under cascading foreign keys an order of the tables reports the right count in every consistent database if and only if it lists children before parents |
| `Retention.FactTablesInOrder` | apps/backend/app/intelligence/retention.py:33 | the order used lists every table once, children first |
| `Retention.NoRootsNoFacts` | apps/backend/alembic/versions/0005_revision_snapshots.py:232-427 | a consistent snapshot without node, observation and diagnostic has no fact at all |
| `Retention.IntegrityExactly` | apps/backend/alembic/versions/0005_revision_snapshots.py:232-427 | integrity table by table: the two nodes of an edge, the subject of an assertion and an observation, the owner of evidence and of a derivation |
| `Retention.FactStore.PurgeSnapshotFacts` | apps/backend/app/intelligence/retention.py:36-56 | removes all facts of a snapshot in state `failed` and no other row, and returns exactly their number; does nothing to a snapshot in any other state |
| `Retention.FactStore.Candidates` | apps/backend/app/intelligence/retention.py:66-75 | up to the limit, distinct failed snapshots with facts, and all of them if fewer |
| `Retention.FactStore.PurgeOrphanedFailedFacts` | apps/backend/app/intelligence/retention.py:59-76 | one sweep removes only facts of failed snapshots, counts them exactly, and returns zero only when no failed snapshot holds any fact |
| `Retention.FactStore.CleanUp` | apps/backend/scripts/cleanup_storage.py:89-94 | the loop terminates with exactly the facts of non-failed snapshots left, and the right total |
| `StableSort.SortByTiers` | apps/backend/app/extraction/dependencies.py:131 | a stable sort depends only on the items of each key in their order |
| `Dependencies.BuildMergedNode` | apps/backend/app/extraction/dependencies.py:130-164 | the merged node has one record per member, declarations and resolutions apart, named after the first in member order |
| `Dependencies.EvidenceByProducer` | apps/backend/app/extraction/dependencies.py:167-173 | each producer gets exactly its own evidence, in member order |
| `Dependencies.MergeDependencyFacts` | apps/backend/app/extraction/dependencies.py:69-112 | the loops compute the merged entries followed by the rewritten ones, and raise exactly when a mergeable node has no evidence |
| `DependencyColumns.MergedExactly` | apps/backend/app/extraction/dependencies.py:79-91 | a key is merged if and only if it names a dependency node and only manifests and lockfiles describe it |
| `DependencyColumns.RaisesExactly` | apps/backend/app/extraction/dependencies.py:96-127 | the merge raises if and only if a node of a merged key has no evidence |
| `DependencyColumns.MembersInOrder` | apps/backend/app/extraction/dependencies.py:115-127 | members stand manifests first, then by source path, then by the lines of their first evidence |
| `DependencyColumns.MergedNodeTells` | apps/backend/app/extraction/dependencies.py:130-164 | the merged node has the name and ecosystem of its first member, and one record for each member in order: declarations for manifests and resolutions for lockfiles, each with its own name, lines, extractor, version and exactly the properties listed for its kind |
| `DependencyColumns.EntriesInOrder` | apps/backend/app/extraction/dependencies.py:101-104 | merged entries come in order of producer and version |
| `DependencyColumns.EntryNodes` | apps/backend/app/extraction/dependencies.py:96-100 | the nodes of a merged entry come in order of stable key, one for each merged key that its producer describes |
| `DependencyOrder.FileOrderForgotten` | apps/backend/app/extraction/dependencies.py:69-173 | permuting files raises alike and rewrites each entry alike, and gives the same merged entries when what tying files contribute commutes |
| `DependencyOrder.FileOrderExactly` | apps/backend/app/extraction/dependencies.py:69-173 | every file order gives the same merged entries if and only if, for each mergeable key and each tie in the member order, the records and the evidence of any two files commute and files tying for the first place agree in ecosystem |
| `DependencyOrder.OneEntryCommutes` | apps/backend/app/extraction/dependencies.py:115-127 | one entry per producer and source path is enough |
| `DependencyOrder.OrderShowsWithinOneSource` | apps/backend/app/extraction/dependencies.py:115-131 | two tying entries make the merged name depend on their order |
| `DependencyLaws.EvidenceConserved` | apps/backend/app/extraction/dependencies.py:69-173 | for every stable key and producer the multiset of evidence is unchanged |
| `DependencyLaws.TailMembers` | apps/backend/app/extraction/dependencies.py:106-112 | no merged key remains in the tail and every other key keeps its members in order |
| `DependencyLaws.TailInPlace` | apps/backend/app/extraction/dependencies.py:106-112 | every entry stays in place with its observations and diagnostics, losing only merged nodes |
| `DependencyLaws.RecordsConserved` | apps/backend/app/extraction/dependencies.py:130-164 | the merged node holds one record per member, resolutions exactly those of lockfiles and declarations exactly the others |
| `DependencyLaws.DeclaredNameWins` | apps/backend/app/extraction/dependencies.py:115-131 | a dependency that some manifest declares is named after a manifest, whatever the lockfiles say |
| `RateLimit.MemoryRateLimitStore.Hit` | apps/backend/app/core/rate_limit.py:121-130 | the new table entry, the count and the wait; other keys keep theirs |
| `RateLimit.MemoryRateLimitStore.Admit` | apps/backend/app/core/rate_limit.py:213-234 | a request is admitted exactly when its count is within the budget |
| `RateLimit.KeysApart` | apps/backend/app/core/rate_limit.py:121-130 | in any run a key sees only its own hits |
| `RateLimit.WindowsApart` | apps/backend/app/core/rate_limit.py:123-128 | two hits share a window with increasing counts, or their windows start a full length apart |
| `RateLimit.RetryAfterRange` | apps/backend/app/core/rate_limit.py:129 | the wait is between one second and the window length |
| `RateLimit.RetryAfterSuffices` | apps/backend/app/core/rate_limit.py:129 | a hit that waited as told falls in a later window |
| `RateLimit.RetryAfterLeast` | apps/backend/app/core/rate_limit.py:129 | it is the least such wait in whole seconds |
| `RateLimit.RetryAfterPositive` | apps/backend/app/core/rate_limit.py:129 | whatever the clock does the wait is at least a second, and the next whole one when time is left |
| `RateLimit.IntervalBudget` | apps/backend/app/core/rate_limit.py:121-130 | any half-open interval of one window length admits at most `2 * limit - 1` |
| `RateLimit.KeyBudget` | apps/backend/app/core/rate_limit.py:208-234 | the same for each key of any run with a monotone clock |
| `RateLimit.BoundIsMet` | apps/backend/app/core/rate_limit.py:121-130 | for every limit and every window length a run meets the bound |
| `BindingScope.Scope.ModuleScope` | apps/backend/app/extraction/python.py:169-173 | the loop finds the root of the chain |
| `BindingScope.Scope.NonlocalParent` | apps/backend/app/extraction/python.py:175-179 | the loop finds the nearest ancestor that is not a class |
| `BindingScope.Scope.Resolve` | apps/backend/app/extraction/python.py:181-189 | the heap lookup is the lookup in the bindings of the moment |
| `BindingScope.Scope.Bind` | apps/backend/app/extraction/python.py:191-199 | one binding of the scope the name is routed to, and nothing else |
| `BindingScope.Scope.IsLexicallyLocal` | apps/backend/app/extraction/python.py:552-560 | the recursive test, on the bindings of the moment |
| `BindingScope.ResolveIsReached` | apps/backend/app/extraction/python.py:181-189 | `resolve` returns what the reached scope binds |
| `BindingScope.NearestBinding` | apps/backend/app/extraction/python.py:181-189 | without declarations a name means what the nearest scope up the chain that binds it says |
| `BindingScope.DeclaredLookup` | apps/backend/app/extraction/python.py:181-187 | a global name means what the end of the chain binds; a nonlocal one means what it means in the nearest ancestor that is no class |
| `BindingScope.EnclosingIsNearest` | apps/backend/app/extraction/python.py:175-179 | every scope passed on the way to that ancestor is a class |
| `BindingScope.BindThenResolve` | apps/backend/app/extraction/python.py:181-199 | after `bind`, `resolve` in the same scope returns the bound value if and only if the name is not nonlocal all the way up to the module |
| `BindingScope.PlainModuleLosesNothing` | apps/backend/app/extraction/python.py:191-199 | a module that declares no nonlocal names loses no binding |
| `BindingScope.DroppedBinding` | apps/backend/app/extraction/python.py:191-199 | a module scope that declares a name nonlocal drops what is bound to it |
| `BindingScope.OtherNamesKeep` | apps/backend/app/extraction/python.py:191-199 | every other name resolves as before in every scope |
| `BindingScope.SameNameElsewhere` | apps/backend/app/extraction/python.py:181-199 | the bound name changes exactly in the scopes whose lookup reaches the scope bound in |
| `BindingScope.LocalExactly` | apps/backend/app/extraction/python.py:552-560 | a name is lexically local if and only if the binding reached is outside the module scope |
| `HttpDestination.PrefixDecidesOrigin` | apps/backend/app/extraction/http.py:122-152 | a destination accepted from a literal prefix has the origin of the prefix followed by any suffix, because the authority is closed as in section 3.2 of RFC 3986, and its path begins that URL's path |
| `WrittenUrls.WrittenDescribed` | apps/backend/app/extraction/http.py:75-152 | a URL written from scheme, credentials, host, port, path and tail as in section 3 of RFC 3986 is described if and only if its scheme is `http` or `https` in any case and its port at most 65535; the origin is then the scheme, the host in lower case without trailing dots and the port unless it is 80 or 443 respectively, and the path is its own or `/`; as a literal prefix it is accepted if and only if its path has begun as well |
| `WrittenUrls.WrittenHost` | apps/backend/app/extraction/http.py:83-90 | an address with a zone is put in lower case up to the `%` of the zone |
| `WrittenUrls.MethodExactly` | apps/backend/app/extraction/http.py:61-72 | a method is accepted if and only if its upper case without surrounding white space is one or more ASCII letters |
| `WrittenUrls.NoiseIgnored` | apps/backend/app/extraction/http.py:84 | white space around a URL and tabs and line breaks inside it change nothing |
| `HttpDestination.PathHasNoQuery` | apps/backend/app/extraction/http.py:75-100 | neither query nor fragment is part of the path |
| `HttpDestination.CredentialsDropped` | apps/backend/app/extraction/http.py:75-100 | credentials in the authority do not change the origin |
| `HttpDestination.OriginsCollideExactly` | apps/backend/app/extraction/http.py:83-100 | two authorities have the same origin if and only if the scheme is the same and either host and effective port are, or one host spells the other host, a colon and the other's port, where its own port is the default and the other's is not |
| `HttpDestination.OriginDecidesService` | apps/backend/app/extraction/http.py:83-100 | for hosts without a colon two origins are equal if and only if scheme, normalized host and effective port are |
| `HttpDestination.BracketsCollide` | apps/backend/app/extraction/http.py:97-99 | the authorities `[::1]:8` and `[::1:8]` get the same origin |
| `HttpDestination.ReferentRoundTrip` | apps/backend/app/extraction/http.py:48-58 | a stored referent parses back to exactly its destination, or to nothing exactly when a part is empty or holds the delimiter |
| `HttpDestination.ParsedIsReferent` | apps/backend/app/extraction/http.py:155-166 | what parses is the referent of what it parses to |
| `HttpDestination.DescribedRoundTrip` | apps/backend/app/extraction/http.py:103-119 | a described destination parses back if and only if neither origin nor path holds the delimiter |
| `HttpDestination.ParsesBackExactly` | apps/backend/app/extraction/http.py:155-166 | a described destination parses back if and only if neither the host nor the path of the prepared URL holds the delimiter |
| `HttpDestination.BarInOriginExactly` | apps/backend/app/extraction/http.py:83-100 | the delimiter is in an origin if and only if it is in the normalized host |
| `HttpDestination.BarInOrigin` | apps/backend/app/extraction/http.py:48-58 | a URL is described with the delimiter in its origin, and its referent does not parse back |

## Left out

- SHA-256, UUIDv5, password hashing, access tokens: opaque; facts are about what is hashed, and the lineage identifier hash is taken to be collision-free.
- Unicode tables: NFC is a parameter with its stated laws (idempotent, leaves ASCII alone, erases no text, keeps path separators apart); letter, space and case tests are parameters without laws.
- SQL engines, sessions and schema changes: tables are maps and sets with the stated foreign keys, and text collation is code-point order.
- `normalize_stable_key`, `compute_edge_id`, `compute_assertion_id`, `compute_config_hash` and the GitHub URL pattern: branch-level facts or opaque.
- `Backfill.Migration.BackfillLineages`: a repository row with only one of `lineage_id` and `sequence` set is not represented; a null and a missing attachment are the same.
- Evidence and derivation records are typed: a record with a missing or foreign field is one rejected shape, not every Python mapping.
- `Parse.JsonParse`: the scalar kind that the reader drops is dropped here too, so exact round trips are stated on tokens.
- The TOML scanners and the TypeScript and `ast` walks other than the binding scopes.
- `_process_guard`, `_add_claim`, `_add_relationship` and the assembly of `impact`: bookkeeping around the two searches.
- Deleted users, whose token rows go in cascade, and the registration allowlist.
- `RefreshRaces.SingleWinner`: a step is atomic; isolation levels of the database below that are not modelled.
- The report printed before a cleanup, which leaves out snapshots that hold only diagnostics.
- The values of `properties` in dependency nodes are texts or null, and observations and diagnostics are opaque there.
- `RateLimit.MemoryRateLimitStore.Hit`: clock values are exact reals, not floating point; the Redis store and the path for an unavailable store are left out.
- `DocumentLaws.EdgeOrderExactly`: takes distinct triples to stay distinct under NFC; with stable keys that only differ in normal form, two triples can share a record and the order of one can hide behind the other.
- `HttpDestination.PrefixDecidesOrigin`: the bracket and compatibility checks that `urlsplit` makes on an authority are one parameter, a test of the authority text.
- Leases, jobs, OAuth, prompts, capability tables and all presentation code.
