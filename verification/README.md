# Verified model of dbrest

dbrest answers PostgREST requests on several database engines: it parses a request into an engine-neutral
query, plans and authorizes it, and lowers it to an engine. This project models the parts whose correctness
is not visible in one function and proves what they promise, for all inputs, all runs or all databases.
`dafny verify dfyconfig.toml` checks everything.

| module | what it covers |
|---|---|
| `Sieve`, `TokenCache` | the SIEVE verified-token cache: an abstract machine, and the linked heap structure that refines it |
| `Authentication` | authentication with the cache equals authentication without it, in every interleaving |
| `Lexer`, `ColumnPath`, `FilterGrammar` | the filter grammar: scanners, lists, column paths, logical trees, and a printer the parser undoes |
| `ParamRouting` | query parameters routed down the embed tree, conserved |
| `LikePattern`, `MongoFilter` | lowering filters to MongoDB documents, with the meaning of both sides |
| `Comparator` | the differential comparator: a greedy matching over a recursive equality |
| `ViewProjection` | foreign keys projected through views to a fixed point |
| `Embedding`, `EmbedTree` | relationships derived from foreign keys, the two queries an embed is lowered to, and inner embeds at every depth |
| `Authz`, `CheckCoverage`, `AnswerScope` | grants, row policies and the predicate injected above the client's filter; how far WITH CHECK is enforced on an update; what an answer draws on beside what the gate looks at |
| `RowOrder`, `WriteShape`, `NullPlacement` | ordering and paging a write's rows; NULL placement across engines |
| `Overloads` | overload resolution for remote procedure calls |
| `Preferences`, `WriteTransaction` | a write from its Prefer header to its commit, any step of which may fail |
| `Ir`, `Json`, `Strings`, `Wrappers` | the shared filter tree with its three-valued meaning, JSON values, string operations, results |

Where the source updates state in place (the cache, the model's foreign keys, the query's filter, the
preference set, the transaction) the model is a class; loops are methods with invariants, each proved against
a function or a relation whose properties are then proved as lemmas.

## Where the code and its promise differ

Each of these is modelled as the code has it, with the exact condition proved.

- `EmbedTree.AlwaysSatisfiedIffSound`: `!inner` is taken at any depth, and its EXISTS is written for the top level
  only, so a nested one restricts nothing (`EmbedTree.NestedInnerBreaks`). At the top level a declared to-one
  relationship across a junction is filtered through the junction and read without it
  (`Embedding.AgreesIffNotToOneJunction`).
- `AnswerScope.ShownIsGrantedIffPlain`: the package comment calls the gate unbypassable (authz/authz.go:10-13), and
  it looks at plain select items only. Aggregated columns, embedded relations, and the whole row that a write
  returns for an alias, a cast or a path, are shown without a grant.
- `AnswerScope.GuardedIffNothingEmbedded`: no policy is injected into an embed, so embedded rows need not satisfy
  the USING terms of their relation.
- `AnswerScope.ChangedRowsGuardedIff`: the filter injected into an upsert is not part of its statement, so a merging
  upsert can overwrite a row that USING excludes.
- `ViewProjection.CompleteIffUnambiguous`: the test for a key already projected ignores the base's schema, so of
  two same-named keys on same-named bases a view inherits one, whichever base comes first.
- `MongoFilter.DistinctExactIffPlainLiteral`: an `isdistinct` literal that starts with `$` is read as a field
  reference.
- `MongoFilter.ReachesIffDotFree`: a name with a dot in it lowers to the same field path as two names would.
- `MongoFilter.LowerReads`: on a NULL field a value comparison is unknown in SQL; MongoDB reads it as false, and
  `neq` as true, so a record that SQL leaves unknown can match. A tree is safe where each comparison has positive
  polarity, counting `neq` and every negation around it (`MongoFilter.PolarTreesPreserved`); a group's negation
  counts too (`MongoFilter.NegatedGroupKeepsNull`).
- `LikePattern.AgreesIffNoNewline`: the wildcards of the regular expression do not cross a newline.
- `LikePattern.AgreesIffNoBackslash`: a backslash is a literal in the regular expression and an escape in
  PostgreSQL.
- `Comparator.GreedIsExactIffNoSlack`: with a positive tolerance the greedy matching can miss a matching that
  exists.
- `CheckCoverage.UpdateEnforcesCheckIff`: an update is checked on the columns it sets, and the comment at
  authz/authz.go:202-204 counts on USING for the others; that suffices exactly when USING forces the term.
  A null it sets is taken for the empty text (`Authz.NullDecidedAsEmpty`) and never satisfies the term.
- `NullPlacement.MongoAgreesIffFirstPlaces`: MongoDB orders as PostgreSQL does only if the first term on each
  column states its NULL placement; and since the rank compares the field with null, which a missing field is not
  equal to, a missing field stays where MongoDB puts it.
- `Overloads.ExactWinsIffFewArguments`: the exact-match bonus decides only below 1000 arguments.
- `RowOrder.LawfulIffNumbersApart`: comparing numbers with text or with NaN is not transitive; the row order is
  determined exactly for sort columns that do not mix them.

## Model

| member | source | states |
|---|---|---|
| `Sieve.VictimIsFirstUnvisited` | auth/cache.go:83-100 | the victim is the first unvisited entry in cyclic order from the hand toward the head, or the starting entry when all are visited; every entry passed was visited |
| `Sieve.EvictKeepsSurvivor` | auth/cache.go:83-115 | every entry but the victim survives in order with its key and claims, and loses its bit exactly if the hand passed it |
| `Sieve.EvictKeepsClaims` | auth/cache.go:83-115 | a key still cached after an eviction has the claims it had |
| `Sieve.EvictWellFormed` | auth/cache.go:83-115 | eviction keeps distinct keys, the capacity bound and the hand inside, removes exactly one entry and adds none |
| `Sieve.GetWellFormed` | auth/cache.go:42-51 | a lookup keeps the invariant and hits exactly the cached keys |
| `Sieve.GetMarks` | auth/cache.go:42-51 | a lookup sets the visited bit of its key's entry; keys, claims, order, hand and all other bits stay |
| `Sieve.PutWellFormed` | auth/cache.go:55-78 | an insertion keeps the invariant, and with a positive capacity the key then yields the new claims |
| `Sieve.PutMarks` | auth/cache.go:61-65 | putting a cached key replaces its claims and sets its bit, and nothing else changes |
| `Sieve.PutInserts` | auth/cache.go:66-78 | a new entry starts unvisited at the head; the others keep their order, and the hand its entry |
| `Sieve.SweepResumes` | auth/cache.go:83-100 | the next sweep begins at the entry that followed the victim toward the head, or at the tail after the head |
| `Sieve.GetSpares` | auth/cache.go:40-51 | looking a key up saves it from the next eviction whenever some other entry is unvisited |
| `Sieve.PutSpares` | auth/cache.go:53-65 | so does putting a cached key again |
| `Sieve.StepBit` | auth/cache.go:42-115 | one operation leaves a cached key's bit set exactly when it touches the key, or the bit was set and it neither inserts the key nor passes its entry |
| `Sieve.PutOrigin` | auth/cache.go:55-78 | every entry after an insertion is the inserted pair or was there before |
| `Sieve.StepKeepsOthers` | auth/cache.go:42-78 | an operation changes what a surviving key yields only if it put that key |
| `Sieve.Run` | auth/cache.go:16-115 | every run from an empty cache is well formed and within its capacity |
| `Sieve.HitIsLastPut` | auth/cache.go:42-78 | after any run, a hit yields the claims last put under that key |
| `Sieve.BitMeansTouched` | auth/cache.go:16-115 | after any run, a cached key's bit is set exactly when the key was looked up or put again since it was inserted or last passed |
| `TokenCache.Cache.constructor` | auth/cache.go:36-38 | a new cache is a valid heap structure standing for the empty machine |
| `TokenCache.Cache.Get` | auth/cache.go:42-51 | the heap stays well linked and indexed and takes exactly the abstract lookup step, which marks the entry found (`Sieve.GetMarks`) |
| `TokenCache.Cache.Put` | auth/cache.go:55-78 | the heap stays well linked and indexed and takes exactly the abstract insertion step |
| `TokenCache.Cache.PushFront` | auth/cache.go:69-77 | a new entry is linked in front of the head, the hand keeps its entry |
| `TokenCache.Cache.Evict` | auth/cache.go:83-100 | the eviction loop terminates and takes exactly the abstract eviction step |
| `TokenCache.Cache.Sweep` | auth/cache.go:84-95 | the loop clears exactly the bits of the entries it passes and stops at the abstract victim |
| `TokenCache.Cache.Remove` | auth/cache.go:103-115 | the entry leaves the links and the index, everything else keeps its place |
| `TokenCache.Cache.Unlink` | auth/cache.go:104-113 | both neighbours, or the ends of the queue, point past the entry; contents are untouched |
| `TokenCache.Cache.Len` | auth/cache.go:118-122 | the index is as large as the queue is long |
| `TokenCache.Replay` | auth/cache.go:16-115 | every run of lookups and insertions on the heap ends valid, in the state of the abstract run |
| `Authentication.CheckAudArray` | auth/auth.go:383-407 | the matched-flag loop computes the audience rule: every element a string, and one of them accepted unless the array is empty |
| `Authentication.ValidatedIffTimely` | auth/auth.go:340-377 | claims pass exactly when exp, nbf and iat are within the skew (sections 4.1.4 to 4.1.6 of RFC 7519) and a present aud passes |
| `Authentication.BearerReads` | auth/auth.go:523-532 | a header of a scheme, blanks and credentials yields exactly the credentials if the scheme is `Bearer` in any case, and nothing for any other scheme |
| `Authentication.AcceptedIff` | auth/auth.go:166-455 | an identity is accepted exactly when there are no bearer credentials and it is the anonymous role, or the token decodes to claims within their times and audience that name its role, or name none and it is the anonymous role, and that role is the anonymous or a permitted one, or no list is set |
| `Authentication.RefusedAs` | auth/auth.go:166-199 | the answer to missing and empty credentials, missing keys, an undecodable token, and, before any other check, an expired one |
| `Authentication.HitIsDecoded` | auth/auth.go:166-227 | in a coherent cache a hit is the decoding of its own key |
| `Authentication.PutKeepsCoherent` | auth/auth.go:205-227 | caching a verified token keeps every entry the decoding of its key |
| `Authentication.Authenticate` | auth/auth.go:166-227 | on the heap cache the outcome is that of authentication with no cache at the same clock reading |
| `Authentication.NextKeepsInv` | auth/auth.go:166-227 | every atomic step of every request keeps the cache coherent and each request's decoded claims its own |
| `Authentication.Execution` | auth/auth.go:166-227 | every interleaving of requests, lookups, verifications and insertions satisfies the invariant |
| `Authentication.CacheIsTransparent` | auth/auth.go:166-199 | in every interleaving, each finished request has the outcome it would have with no cache |
| `Authentication.NoStaleTokenAccepted` | auth/auth.go:340-377 | no run accepts claims whose exp is more than the skew in the past, or whose nbf or iat is beyond it in the future |
| `Lexer.CutIdentAware` | ir/parse.go:1461-1483 | cuts at the first separator outside quotes |
| `Lexer.SplitTopLevel` | ir/parse.go:1422-1454 | the index loop returns the pieces between commas at depth 0 outside quotes |
| `Lexer.SplitFromIsSplit` | ir/parse.go:1422-1454 | the position-based scan and the recursive split agree from every position and state |
| `Lexer.SplitJoin` | ir/parse.go:1422-1454 | splitting joined solid pieces returns the pieces |
| `Lexer.UnescapeQuoted` | ir/parse.go:1308-1323 | the loop drops each escaping backslash and keeps what follows it |
| `Lexer.UnescapeUndoesEscape` | ir/parse.go:1308-1323 | unescaping undoes escaping on every string |
| `Lexer.ElementReads` | ir/parse.go:1278-1323 | a list element, bare where it can be or quoted and escaped, with any white space around it, is read as itself |
| `Lexer.ParseList` | ir/parse.go:1278-1304 | a bracketed list is trimmed, split, and each quoted element unescaped; unbracketed and empty lists are errors |
| `Lexer.ListRoundTrip` | ir/parse.go:1278-1351 | spelling any non-empty list of strings, each bare or quoted and escaped, and parsing it returns the list, for both bracket kinds |
| `Lexer.ListAccepts` | ir/parse.go:1278-1300 | a text is a list exactly when, trimmed, it is bracketed with something inside; the list is then not empty |
| `ColumnPath.UnquoteUndoesQuote` | ir/parse.go:1489-1494 | removing quotes undoes quoting with doubled quotes, on every string |
| `ColumnPath.SweepHops` | ir/parse.go:923-976 | the arrow loop returns the hops and the last arrow of the recursive sweep |
| `ColumnPath.ParsePath` | ir/parse.go:923-976 | hops are unquoted, a bare one kept as it is, and an empty one is an error |
| `ColumnPath.BareNameIsColumn` | ir/parse.go:923-976 | a non-empty name without quotes or arrows is the column of exactly that name |
| `ColumnPath.PathRoundTrip` | ir/parse.go:923-976 | printing any path, each name bare (without quotes or arrows, not starting with `>`) or quoted (without backslashes), and parsing it returns the hops and the final arrow |
| `ColumnPath.PathShaped` | ir/parse.go:923-976 | whatever the text, a path that parses has hops, none empty, and a final arrow exactly when it has several |
| `ColumnPath.CutAfterPath` | ir/parse.go:1461-1483 | a printed path is never cut inside: the first dot found is one after it, whether its names are bare or quoted |
| `FilterGrammar.ParseLogical` | ir/parse.go:1112-1174 | the recursive parser computes the grammar's meaning, errors included, which gives every printed tree back (`FilterGrammar.LogicalRoundTrip`) |
| `FilterGrammar.ParseKids` | ir/parse.go:1127-1163 | the appending loop parses every member, or fails with the first error |
| `FilterGrammar.ParseKid` | ir/parse.go:1129-1162 | a member is a nested group, negated or not, or a leaf |
| `FilterGrammar.CompareRoundTrip` | ir/parse.go:1177-1265 | printing a good leaf's operation, with negation, quantifier, full-text variant and operand, `*` for `%` included, and parsing it returns the leaf |
| `FilterGrammar.LeafNotNested` | ir/parse.go:1129-1141 | a printed comparison is never taken for a nested group, not even on a bare column named not, and or or |
| `FilterGrammar.KidRoundTrip` | ir/parse.go:1129-1162 | printing a leaf, its names and list elements bare or quoted, or a nested group, and parsing it returns it |
| `FilterGrammar.PaddedKid` | ir/parse.go:1129-1162 | white space around a member changes nothing |
| `FilterGrammar.MembersRoundTrip` | ir/parse.go:1112-1174 | printing the members of a group and parsing them returns the group |
| `FilterGrammar.LogicalRoundTrip` | ir/parse.go:1112-1174 | printing any logical tree, nested to any depth, with names and list elements bare or quoted as the client likes, and parsing it returns the tree |
| `FilterGrammar.GroupShaped` | ir/parse.go:1112-1265 | whatever the text, a tree that parses has no empty group and no empty name, and every comparison a value that fits its operator and quantifier, without `*` under like and ilike |
| `ParamRouting.Partition` | ir/parse.go:73-91 | in any key order, each key stays at this level or goes, without its head, to the embed it names |
| `ParamRouting.TargetByName` | ir/parse.go:73-143 | a plain name and a dot address the first embed of that name and no other, and stay if there is none, as does a key without a dot |
| `ParamRouting.ApplyParams` | ir/parse.go:72-133 | in any iteration order, routing succeeds exactly when every reached level does, and a success is the one routing |
| `ParamRouting.FollowInjective` | ir/parse.go:72-143 | two keys that follow to the same level and remainder are one key |
| `ParamRouting.Delivered` | ir/parse.go:72-133 | a key whose remainder is not `select` arrives, with its values, at the level its prefixes lead to |
| `ParamRouting.Origin` | ir/parse.go:72-133 | every parameter at a level came from a key that belongs there |
| `ParamRouting.ParamsConserved` | ir/parse.go:72-143 | a level holds a parameter exactly when one key leads there, with that key's values: none lost, none duplicated |
| `LikePattern.LikeToRegex` | backend/mongo/query.go:179-197 | the loop builds the anchored regular expression of the pattern |
| `LikePattern.RegexIsLike` | backend/mongo/query.go:179-197 | on every newline-free string the regular expression matches exactly when LIKE does, with and without case folding |
| `LikePattern.AgreesIffNoNewline` | backend/mongo/query.go:179-197 | all patterns agree on a string exactly when it has no newline |
| `LikePattern.AgreesIffNoBackslash` | backend/mongo/query.go:174-197 | on all newline-free strings the regular expression means PostgreSQL's escaping LIKE exactly when the pattern has no backslash |
| `LikePattern.EscapedPercentDiffers` | backend/mongo/query.go:174-197 | the pattern 50\% is the text 50% in PostgreSQL, which the regular expression does not match |
| `MongoFilter.LowerFilter` | backend/mongo/query.go:29-46 | the recursive lowering, full-text search strings and errors included; what it reads is `MongoFilter.LowerReads` and `MongoFilter.ReachesIffDotFree` |
| `MongoFilter.LowerGroup` | backend/mongo/query.go:49-59 | the loop lowers every member under one operator, or fails with the first error |
| `MongoFilter.LowerFailsIffUnsupported` | backend/mongo/query.go:29-139 | lowering fails exactly when some node is an array or range operator or an unsupported node |
| `MongoFilter.ReachesIffDotFree` | backend/mongo/query.go:213-217 | on every nested record, following the path hop by hop and resolving the lowered field name dot by dot find the same value exactly for paths of names without dots |
| `MongoFilter.FtsSearchKeepsWords` | backend/mongo/query.go:204-211 | the search text holds exactly the words of the operand in order, whatever white space stands around them, between quotes for a phrase |
| `MongoFilter.NegateMeansNot` | backend/mongo/query.go:65-72 | a negated document matches exactly the records the document does not |
| `MongoFilter.LeafPreserved` | backend/mongo/query.go:89-162 | where a value comparison finds text, and for is and isdistinct on any field, the comparison and its document agree |
| `MongoFilter.LowerReads` | backend/mongo/query.go:29-162 | on every record the lowered tree matches exactly when the tree is true with each value comparison on a field that is not text read as false, neq as true |
| `MongoFilter.PolarTreesPreserved` | backend/mongo/query.go:29-162 | on every record, null and missing fields included, a tree whose value comparisons all have positive polarity matches exactly when it is true in three-valued logic; with negative polarity, exactly when it is not false |
| `MongoFilter.LowerPreservesMeaning` | backend/mongo/query.go:29-162 | where every value comparison finds text, whatever its polarity, the tree is never unknown and a record matches exactly when it is true |
| `MongoFilter.NullFieldKeptIff` | backend/mongo/query.go:77-139 | a lone comparison on a NULL field is unknown in SQL, and MongoDB matches exactly when its polarity is negative |
| `MongoFilter.NegatedGroupKeepsNull` | backend/mongo/query.go:65-72 | a negated group around an un-negated eq is unknown on a record without the field, and matches it |
| `MongoFilter.DistinctExactIffPlainLiteral` | backend/mongo/query.go:89-139 | on a path of plain names, isdistinct agrees on every record exactly when the literal does not start with `$` |
| `Comparator.EqualJson` | conformance/compare.go:139-173 | the recursive comparison with its early exits computes the relation |
| `Comparator.MultisetEqual` | conformance/compare.go:178-197 | the used-flag loops compute the greedy matching |
| `Comparator.GreedySound` | conformance/compare.go:178-197 | at any tolerance, success yields an injective pairing of equal elements |
| `Comparator.GreedyComplete` | conformance/compare.go:178-197 | at tolerance 0, an existing pairing is found, whatever was taken before |
| `Comparator.GreedyExact` | conformance/compare.go:178-197 | at tolerance 0, on equal lengths, success is exactly the existence of a bijection of equal elements |
| `Comparator.GreedIsExactIffNoSlack` | conformance/compare.go:178-197 | that exactness holds for all arrays exactly when the tolerance is not positive |
| `Comparator.Reflexive` | conformance/compare.go:139-173 | every JSON value equals itself at any non-negative tolerance |
| `Comparator.Symmetric` | conformance/compare.go:139-173 | equality at tolerance 0 is symmetric, unordered arrays included |
| `Comparator.Transitive` | conformance/compare.go:139-173 | equality at tolerance 0 is transitive, unordered arrays included |
| `Comparator.EqualIsEquivalence` | conformance/compare.go:139-173 | equality at tolerance 0 is an equivalence relation on all JSON values |
| `Comparator.OrderedIsEquality` | conformance/compare.go:139-173 | in order and without slack, the comparison is equality of values |
| `Comparator.UnorderedMeans` | conformance/compare.go:139-197 | in any order and without slack, arrays are equal exactly when a bijection pairs equal elements, objects when their members are equal, and everything else when it is identical |
| `ViewProjection.ExposedColumns` | schema/views.go:41-55 | the index holds, for each base, the first view column that exposes each of its columns |
| `ViewProjection.MapBy` | schema/views.go:87-97 | maps every column in order, or fails if one is not exposed |
| `ViewProjection.ImageByPosition` | schema/views.go:58-97 | a view has an image of a key exactly when it exposes each of its columns; the image keeps the referenced columns, and its column i is the name of the first view column that shows the key's column i |
| `ViewProjection.Inherit` | schema/views.go:63-80 | adds exactly images of the base's keys whose name and base name the view did not have, so that none is missing by that test, and nothing when none is |
| `ViewProjection.ProjectFrom` | schema/views.go:58-81 | after one base, every surviving key of that base is on the view by name and base name |
| `ViewProjection.ProjectOneView` | schema/views.go:40-83 | after one view another projection onto it would add nothing; other relations keep their keys |
| `ViewProjection.PassStep` | schema/views.go:18-34 | visiting a view leaves the views settled by earlier passes and earlier visits settled |
| `ViewProjection.Pass` | schema/views.go:20-32 | a pass settles one more rank of views, and a pass that adds nothing proves that nothing is missing |
| `ViewProjection.RankSqueezed` | schema/views.go:18-34 | acyclic references have ranks below the number of relations, so the bound on passes suffices |
| `ViewProjection.Model.ProjectViews` | schema/views.go:18-34 | on acyclic references the bounded loop ends where another pass adds nothing, only adds traced keys, whose columns pair as `ViewProjection.ChainKeepsReference` says, and leaves views that had none with images of their bases' keys, one for each name and base name |
| `ViewProjection.CompleteIffUnambiguous` | schema/views.go:58-108 | there, a view holds the image of every surviving key exactly when keys that share their name and their base's name have one image |
| `ViewProjection.SameNamedBases` | schema/views.go:101-108 | a view over a.t and b.t, each with a key of the same name, is closed with one of the two images |
| `ViewProjection.ProjectedIsTraced` | schema/views.go:58-81 | a projection of a traced key is traced |
| `ViewProjection.ChainKeepsReference` | schema/views.go:58-97 | along any chain of projections the name and the referenced relation and columns stay, and each link's column i is the name under which its view shows the column i before it |
| `Embedding.Relationships` | schema/relationship.go:104-182 | one edge for every foreign key out of the parent, every one into it and every pair of junction keys, and no other, so the number of edges is the number of ways to embed |
| `Embedding.EdgeJoins` | schema/relationship.go:112-182 | the edge of a parent's key joins a row with those it references, the edge of a target's key with those that reference it, and a junction edge through the rows that reference both ends, column by column |
| `Embedding.ArisesIff` | schema/relationship.go:155-182 | the keys that give edges are those between the ends, and two distinct keys of a third relation, one to each end, whose columns are in its primary key |
| `Embedding.BackwardToOneIff` | schema/relationship.go:131-143 | the edge of a target's key is to-one exactly when the key's columns are, as a set, the primary key's or a unique constraint's |
| `Embedding.JunctionEdges` | schema/relationship.go:159-182 | across one junction, one edge for every two distinct keys to both ends that are in its primary key |
| `Embedding.ExistsIffPresent` | backend/sqlgen/embed.go:193-328 | on every database the EXISTS of an embed holds of a row exactly when the embed's own value there is a non-empty array or a non-null object |
| `Embedding.AgreesIffNotToOneJunction` | backend/sqlgen/embed.go:193-328 | for one embed, EXISTS and value agree on every database exactly when the edge is not to-one across a junction, or the junction is the target itself and joins as the target does |
| `Embedding.JoinsAlikeIffSameColumns` | backend/sqlgen/embed.go:284-328 | a junction joins as the target does exactly when its columns to both ends are the target's own |
| `EmbedTree.ExistsIsRead` | backend/sqlgen/embed.go:193-328 | an embed whose EXISTS holds is present, if a to-one junction edge reaches both ends by the same columns |
| `EmbedTree.DeepInnerBreaks` | backend/sqlgen/embed.go:43-104 | an inner embed anywhere below the top level leaves some database and filters under which a kept row lacks it |
| `EmbedTree.UnreadBreaks` | backend/sqlgen/embed.go:193-328 | so does an inner one at the top that is to-one across a junction with different columns, whatever the other embeds are |
| `EmbedTree.AlwaysSatisfiedIffSound` | backend/sqlgen/embed.go:43-104 | in a tree of embeds, every kept or embedded row has each of its inner embeds, on every database and under all filters, exactly when no embed below the top level is inner and each inner one is read as it is filtered |
| `EmbedTree.NestedInnerBreaks` | ir/parse.go:820-830 | an inner embed inside an inner embed breaks that over any two edges |
| `Embedding.LimitOneDiscardsNothing` | backend/sqlgen/embed.go:207-226 | on every database that satisfies the keys, LIMIT 1 of a derived to-one edge never discards a row |
| `Authz.MergeGrants` | authz/authz.go:118-131 | merged grants allow a column exactly when some declaration does |
| `Authz.MergePolicies` | authz/authz.go:132-142 | merged policies are the terms of all declarations for the role and relation |
| `Authz.NewRegistry` | authz/authz.go:113-144 | the registry holds exactly the merged declarations |
| `Authz.MergedTermsAre` | authz/authz.go:132-142 | a term is in a merged policy exactly when some matching declaration has it, so order is irrelevant |
| `Authz.GateSelect` | authz/authz.go:219-240 | passes exactly when every plain column of the select list is granted, and all of them for a star or an empty list; aggregates and embeds pass unexamined |
| `Authz.GateWriteColumns` | authz/authz.go:244-263 | passes exactly when every written column is granted |
| `Authz.UsingConds` | authz/authz.go:268-283 | one condition per term; a missing claim gives a condition no row satisfies |
| `Authz.ResolvedMeans` | authz/authz.go:346-398 | a term compares with its literal if it names no claim, with the text of the value that the dotted member names lead to, or with nothing if they lead nowhere |
| `Authz.EvalPredicate` | authz/authz.go:305-330 | passes exactly when every term does on the row's values |
| `Authz.Query.Authorize` | authz/authz.go:151-210 | the error and the new filter are those of the decision, which accepts exactly as `Authz.AcceptedIff` says; a missing privilege leaves the filter alone |
| `Authz.PassesIffPrivileged` | authz/authz.go:151-263 | the gates let a request through exactly when a declaration grants INSERT to an insert, UPDATE to an update, DELETE to a delete, both INSERT and UPDATE to an upsert, each on every column the payload writes, and SELECT, on every column a plain item starts from, or wholly for a star or empty selection, to a read and to a write that answers with rows |
| `Authz.ChecksPassIff` | authz/authz.go:191-207 | the merged check passes exactly when every written row passes every WITH CHECK term of every matching policy |
| `Authz.AcceptedIff` | authz/authz.go:151-210 | a request is accepted exactly when the declarations grant what the gates look at and its rows pass every WITH CHECK term, for any order of declarations |
| `AnswerScope.AlwaysGrantedIffCovered` | authz/authz.go:151-263 | for any set of things drawn on, acceptance implies their grants under all declarations exactly when the gate asks for a grant covering each |
| `AnswerScope.ShownIsGrantedIffPlain` | authz/authz.go:219-240 | an accepted request shows only what is granted, under all declarations, exactly when it shows no other relation, aggregates only plainly selected columns, is not of hidden embeds only, and as a write lists plain columns |
| `AnswerScope.AggregateIsNotGated` | authz/authz.go:229-238 | an aggregate of a column is let through without a grant on it |
| `AnswerScope.EmbedIsNotGated` | authz/authz.go:151-210 | an embed is let through without a grant on its relation |
| `AnswerScope.AliasReadsBackAll` | ir/ir.go:154-188 | a write that returns an aliased column reads back every column |
| `AnswerScope.ConsultedIsGrantedIff` | authz/authz.go:151-240 | the columns a read filters and orders by are granted, under all declarations, exactly when they are selected too or all columns are |
| `AnswerScope.GuardedIffNothingEmbedded` | authz/authz.go:186-193 | a read's own rows satisfy USING under all declarations, and its embedded rows exactly when its embeds can embed none |
| `AnswerScope.ChangedRowsGuardedIff` | backend/sqlgen/compile.go:333-395 | every stored row an accepted write changes satisfies USING, under all declarations, exactly when the write is not a merging upsert |
| `Authz.InjectedMeansBoth` | authz/authz.go:289-300 | the injected filter is true on a row exactly when the client's is and every condition is |
| `Authz.FilterIsClientAndPolicies` | authz/authz.go:151-300 | the filter left on the query is true exactly when the client's is and every USING term of every matching policy holds; an upsert's statement does not use it |
| `Authz.UpdateSatisfiesCheck` | authz/authz.go:151-330 | an accepted update that does not null the term's column leaves every kept row satisfying a WITH CHECK term that is also a USING term |
| `CheckCoverage.CoversIffForced` | authz/authz.go:268-283 | all rows that satisfy the USING terms satisfy a term exactly when the terms miss a claim, clash, or one of them entails it |
| `CheckCoverage.UpdateEnforcesCheckIff` | authz/authz.go:190-208 | an accepted update always leaves rows that satisfy a WITH CHECK term exactly when it sets the term's column to a non-null value, leaves the column alone and USING forces the term, or can change no row |
| `Authz.InsertSatisfiesCheckIff` | authz/authz.go:194-200 | a row of an accepted insert or upsert satisfies a WITH CHECK term exactly when its value for the column is not null |
| `Authz.NullDecidedAsEmpty` | authz/authz.go:333-398 | an update that assigns null is answered, and filtered, exactly as one that assigns the empty text |
| `RowOrder.CompareTextLawful` | backend/writerep.go:123-157 | text comparison is a total order, equal only on equal texts |
| `RowOrder.TextIsLexicographic` | backend/writerep.go:123-157 | text comparison is the lexicographic order of characters |
| `RowOrder.CompareKeyedLawful` | backend/writerep.go:91-116 | where numbers do not meet text or NaN, comparing one key is antisymmetric and transitive, ties included, whatever direction and NULL placement |
| `RowOrder.LawfulIffNumbersApart` | backend/writerep.go:123-196 | sorting a column is lawful on all values of some kinds exactly when the kinds do not hold numbers together with text or NaN; booleans mix with either |
| `RowOrder.TextCycle` | backend/writerep.go:123-157 | the numbers 9 and 10 and the text 5 compare in a circle |
| `RowOrder.NaNTies` | backend/writerep.go:123-134 | NaN ties with 9 and with 10, which do not tie |
| `WriteShape.CompareLawful` | backend/writerep.go:91-116 | on rows whose sort columns do not mix numbers with text or NaN, the comparison by all keys is a strict weak order |
| `WriteShape.StableOrderUnique` | backend/writerep.go:91-117 | a stable sorted order is unique |
| `WriteShape.StableSort` | backend/writerep.go:91-117 | the result is a permutation of the rows, and the stable sorted one where the comparison is lawful |
| `WriteShape.BuildKeys` | backend/writerep.go:67-87 | one key per plain term on a returned column, with NULLs last ascending and first descending unless the term says otherwise |
| `WriteShape.ShapeWriteRepresentation` | backend/writerep.go:44-118 | for all rows as wide as the column list, the returned rows are a page of a permutation, the stable sorted one where the comparison is lawful |
| `WriteShape.PageIsWindow` | backend/writerep.go:200-215 | a page is positions min(offset, n) to min(offset + limit, n) |
| `WriteShape.SortedOneWay` | backend/writerep.go:44-118 | where the comparison is lawful the sorted rows are determined, so any stable sort gives the same answer |
| `WriteShape.TiesDefer` | backend/writerep.go:91-116 | the first key that tells two rows apart decides their order |
| `WriteShape.NullsStandWhereAsked` | backend/writerep.go:91-116 | among rows that tie on the earlier terms, NULLs stand at the end a term asks for, whatever its direction |
| `WriteShape.ValuesStandInOrder` | backend/writerep.go:91-116 | among rows that tie on the earlier terms, two numbers, two booleans or two texts stand in ascending order, or in descending order under desc |
| `NullPlacement.OrderStages` | backend/mongo/pipeline.go:66-93 | the rank fields and the sort document mean one key per term, preceded where placement is explicit by a rank that only a stored null gets |
| `NullPlacement.MongoTerm` | backend/mongo/pipeline.go:66-93 | one term agrees with PostgreSQL on a pair exactly when, without a placement, both are NULL or neither is; with one, neither field is missing or both are, or a missing field meets a value and the placement is MongoDB's own |
| `NullPlacement.MongoAgreesIffFirstPlaces` | backend/mongo/pipeline.go:66-93 | a list of terms orders all records as PostgreSQL does exactly when the first term on each column is explicit, if some fields are null; explicit and the placement MongoDB has anyway, if some are missing; and never, if there are both and any term |
| `NullPlacement.MissingFieldSortsFirst` | backend/mongo/pipeline.go:66-93 | under asc.nullslast a record that lacks the field comes before one that has it, where PostgreSQL puts it after |
| `NullPlacement.MySqlAgrees` | backend/mysql/dialect.go:60-70 | the IS NULL key and the column order all rows as PostgreSQL does |
| `NullPlacement.MemoryAgrees` | backend/writerep.go:63-118 | with values compared alike, the in-memory comparator over the keys built for any order list places NULLs and takes the plain terms on returned columns as PostgreSQL does, on all pairs of rows |
| `Overloads.Resolve` | rpc/registry.go:218-253 | the running best and its ties are those of the whole list |
| `Overloads.SatisfiableMeans` | rpc/registry.go:266-280 | a call suits an overload exactly when it gives every parameter that is neither optional nor variadic, and nothing the overload does not have |
| `Overloads.JoinedAreListed` | rpc/registry.go:164-180 | a signature lists each parameter in order with its type |
| `Overloads.ResolvedMeans` | rpc/registry.go:218-253 | a function is returned exactly when one satisfiable overload has the highest score; otherwise exactly the tied maxima's signatures, sorted |
| `Overloads.ResolvedIgnoresOrder` | rpc/registry.go:218-253 | every permutation of the overloads resolves alike |
| `Overloads.ExactBeatsInexact` | rpc/registry.go:230-291 | below 1000 arguments an exact match outscores every inexact overload with distinct parameters |
| `Overloads.ExactWinsIffFewArguments` | rpc/registry.go:230-291 | that holds for all overloads exactly when there are fewer than 1000 arguments |
| `Preferences.PreferSet.Consider` | ir/prefer.go:78-93 | one more token keeps the fields, the echoes, the seen preferences and the offenders those of the tokens so far |
| `Preferences.PreferSet.Parse` | ir/prefer.go:69-104 | after any header list each field is settled by first tokens, offenders are listed in order, and the bound is kept only under strict handling |
| `Preferences.HeaderReads` | ir/prefer.go:69-93 | preferences sent in one header line, with any white space around names and values, are its tokens in order |
| `Preferences.NamesMean` | ir/prefer.go:53-57 | the eight names the server knows, and what each stands for |
| `Preferences.SettingsMean` | ir/prefer.go:109-180 | the words that each preference takes, the bound and the time zone aside |
| `Preferences.DecimalReads` | ir/prefer.go:181-186 | the decimal text of a number is read as that number if it fits 64 bits, and refused otherwise |
| `Preferences.PreferSet.ResolveTx` | ir/prefer.go:209-249 | after any header list the mode is rollback exactly when that is the outcome of the first tokens under the policy, a strict request is rejected exactly when it carries an offender or a tx token the policy does not allow, and a tx token is echoed only under an override policy |
| `Preferences.FirstIsEarliest` | ir/prefer.go:84-93 | the value that counts is the earliest token's (section 2 of RFC 7240), and there is none exactly when no token names the preference |
| `Preferences.FirstMoves` | ir/prefer.go:72-95 | moving a token across tokens of other preferences changes no preference's first value |
| `Preferences.PlaceDoesNotMatter` | ir/prefer.go:72-102 | strictness, the bound and the outcome are the same wherever the handling token stands |
| `Preferences.OutcomeByEarliest` | ir/prefer.go:209-239 | an override policy honors the earliest tx token when valid; a fixed policy ignores the client |
| `Preferences.BoundByEarliest` | ir/prefer.go:84-102 | handling is strict exactly when the earliest handling token says strict, and the earliest max-affected number bounds a write exactly then |
| `WriteTransaction.RemoveColumn` | backend/postgres/execute.go:205-211 | the row without that column |
| `WriteTransaction.StripXmax` | backend/postgres/execute.go:173-218 | every row loses its xmax column, and the count is of the rows with a zero or empty one |
| `WriteTransaction.ReadAnswer` | backend/postgres/execute.go:162-230 | the count is of all mutated rows; the rows shown are a page of them in order, an upsert's without xmax and with its new rows counted |
| `WriteTransaction.Transaction.Rollback` | backend/postgres/execute.go:122-122 | ends an open transaction, does nothing to one that is over |
| `WriteTransaction.Mutate` | backend/postgres/execute.go:162-230 | whether the statement succeeds or fails, the transaction holds what it left; a success is read as the answer |
| `WriteTransaction.ExecuteWrite` | backend/postgres/execute.go:117-255 | whatever step fails, the transaction is over and others see the whole mutation or none of it: all of it exactly when every step took effect, the bounds hold and the mode is not rollback; then no error is returned if the commit is reported truthfully |
| `WriteTransaction.DurableIff` | backend/postgres/execute.go:117-255 | what makes a write durable: every step, a non-empty mutation, a count within max-affected and one if singular, and no rollback |
| `WriteTransaction.DurableAnswersIffTruthful` | backend/postgres/execute.go:248-254 | a durable write returns no error, in every run of every driver, exactly when a commit that takes effect is reported |
| `WriteTransaction.Settle` | httpapi/server.go:302-308 | a request passes exactly when strict handling refuses nothing, with the policy's outcome and the strict bound |
| `WriteTransaction.HandleWrite` | httpapi/server.go:942-1025 | a write is durable exactly when nothing refuses it and every step allows it; then its outcome is commit, it is within max-affected under strict handling, affects one row if singular, and returned no error if the commit is reported truthfully |
| `WriteTransaction.SameDurability` | httpapi/server.go:981-987 | a mode left to the default is durable exactly when an explicit commit is |

## Left out

- Strings are sequences of code points; Go's byte-level view of invalid UTF-8 is not modelled.
- Signature checks, key handling and token decoding are one deterministic function of the raw token, and reading the role claim is a function of the claims.
- Sharing between callers and the cache (claims maps, policy slices) is not modelled: claims and terms are values.
- Clock readings, time zones that exist, driver steps and computed-relationship functions are parameters.
- 64-bit overflow when the skew is added to a claim is not modelled.
- ParamRouting.ApplyParams: builds the routed tree as a value instead of filling the query in place; what a level makes of its own parameters (filters, order, limits) is a function parameter.
- ViewProjection.Pass: keeps the foreign keys in a map that the class replaces, so appending to shared slices is not captured.
- FilterGrammar.LogicalRoundTrip: the printed operands are balanced and comma-free at depth 0, do not end in white space, and are without `*` for like and ilike, since the code rewrites `*`; a name or list element that cannot stand bare is quoted, and one text is spelled one way throughout a tree.
- MongoFilter.LowerReads: covers unquantified comparisons with text on paths of names without dots that do not start with `$`; value coercion (a boolean or a document under such a comparison counts as unknown), arrays, quantified comparisons, full text matching and empty groups are outside.
- LikePattern.AgreesIffNoBackslash: patterns without newlines, under a case folding that keeps the backslash apart.
- Embedding.Relationships: declared and computed edges, name lookup on the search path and hint matching are outside; aggregates, limits and offsets of an embed are outside the two queries.
- Embedding.JoinsAlikeIffSameColumns: the lists of columns are paired and repeat none, as a key's are.
- EmbedTree.AlwaysSatisfiedIffSound: the same of the top level's edges, and a computed relationship crosses no junction; spread embeds, limits and embed-existence filters are outside.
- AnswerScope.ShownIsGrantedIffPlain: embeds of the request's own relation are left to `AlwaysGrantedIffCovered`; the primary key in a Location header, spread embeds and function calls are outside.
- NullPlacement.MemoryAgrees: that the in-memory order of values is the engine's is not claimed; small integers and decimals that a driver returns in types of its own compare as text.
- NullPlacement.OrderStages: a document field with the name of a rank field is outside.
- Cells are numbers after the code's conversion to a float, NaN, booleans or text; dates and JSON count as the text they print as.
- WriteShape.StableSort: the library's stable sort is an insertion sort on sequences, so where the comparison is not lawful only a permutation is claimed; a related-resource order term is a plain column, as the code treats it.
- WriteTransaction.HandleWrite: body decoding, planning and authorization only say whether the request goes on; rendering the answer is outside.
- Overloads.Resolve: registry loading and merging are outside.
- parseSelect, parseOrder, parseFilters, body decoding and RPC calls: mostly per-key assignments.
- SQL text, the statement builder and dialect strings: the embed queries are modelled as relational algebra.
- The write protocols of the other engines, introspection, HTTP routing, OpenAPI, configuration and error tables.
