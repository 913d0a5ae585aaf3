# Memory layer of the personal-memory chatbot, in Dafny

The chatbot in `app.py` keeps two kinds of memory about its user:

- a **knowledge graph** of `(entity1)-[relationship]->(entity2)` facts, and
- an index of **past conversations**.

This project models the part of `app.py` that decides what goes into each store and what comes back out, and proves properties of that model.

On the write side:

- The memory classifier's label chooses a store (`process_and_store_memory`).
- The extractor's `ENTITY1|RELATIONSHIP|ENTITY2|CONFIDENCE` lines are parsed (`store_in_knowledge_graph`).
- Each candidate fact is filtered:
  - on its confidence;
  - for passing emotions (critical medical terms override this filter);
  - for opinion words.
- Each fact is given a priority tier.
- Each fact is stored by one of two protocols:
  - **contradiction**: archive the old value with reason `corrected` or `updated`, and add a new edge that remembers the old value;
  - **plain**: MERGE the edge and stamp it with confidence and priority.

On the read side:

- The router's label selects the sources.
- The graph is queried for a main entity: active edges only, at most five rows.
- Retrieved conversations are ranked by word overlap with the question.
- Facts and conversations are merged into one deduplicated context block. That block is placed inside the system instruction, or the bot falls back on general knowledge.

## How the model is built

- `wrappers.dfy`: the `Option` type.
- `text.dfy`: the Python string operations the code relies on:
  - the `in` substring test;
  - ASCII `lower`/`upper`;
  - `strip`;
  - `split(sep)` and `sep.join`;
  - whitespace `split()` into words.
- `lexicon.dfy`: the keyword lists, correction detection, the emotion filter, fact validation and the priority tiers.
- `facts.dfy`: reading the extractor's answer into facts.
- `graph.dfy`: the graph as a sequence of relation edges in creation order. It covers:
  - the contradiction lookup;
  - archiving;
  - MERGE;
  - the per-fact store protocol;
  - the query.
- `graph_laws.dfy`: laws of the store protocol. These are uniqueness of edges per triple, the two paths, idempotence, and multi-step scenarios for a single (entity1, relationship) slot. They are stated over `Graph.StoreAccepted`, the protocol a fact enters once it has passed validation. `Graph.StoreFact` is validation followed by `StoreAccepted`, so the laws hold for every valid fact.
- `retrieval.dfy`: relevance ranking, a stable descending sort proved generically over any key, and context merging with deduplication.
- `orchestrator.dfy`: label normalisation, the write dispatch, the read path and the system instruction.

The Neo4j graph is a `seq<Edge>`:

- A Cypher `MATCH … SET` becomes a map over the matching edges.
- A `MERGE` becomes "reuse every edge with this triple, or append one".
- Results are taken in edge creation order. This is how the model determinises the database's unspecified row order, e.g. "the first existing value" and the `LIMIT 5` rows.

Entity nodes are implicit in the edges' endpoint names.

### Behaviour of the code worth knowing

- **The emotion filter matches fixed phrases.** The comment at `app.py:112` says temporary emotions should not be stored as facts. The list at `app.py:113-117` only holds the phrase `i'm tired`, so "I'm so tired today" is not filtered.
- **A slot can hold two active values.**
  - `update_fact_in_graph` is meant to "archive the old one" (`app.py:201`), leaving one active value per (entity1, relationship).
  - The contradiction lookup (`app.py:189-197`) does not exclude archived edges, and it returns the first row. With rows in creation order, from the third distinct value on, the archived first value is archived again. The second value stays active beside the third.
  - `GraphLaws.ThirdValueLeavesTwoActive` proves this for every graph in which the slot is still empty and every three distinct values with the first non-empty, with rows in creation order.
- **Two more consequences of the code, also proved:**
  - An empty existing value is falsy, so it is never superseded (`GraphLaws.EmptyValueNeverSuperseded`).
  - Re-stating a value that was archived reuses its edge without clearing the flag (`GraphLaws.ReassertedValueStaysArchived`).
- **The correction detector matches inside words.** The marker `no` also matches inside "know" and "not" (`Lexicon.KnowIsCorrection`).
- **Redundant code.** Two checks never change the outcome:
  - the early return of `store_in_knowledge_graph` for `""` and `NONE` (`Facts.NoneGuardRedundant`);
  - the `facts_text not in seen_content` test in `merge_and_deduplicate_context`, whose seen set is always empty at that point.

## Model

| member | source | states |
|---|---|---|
| Text.ContainsIff | app.py:108 | the substring test holds exactly when the pattern occurs at some position of the text |
| Text.Strip | app.py:225 | the result has no leading or trailing whitespace, is a contiguous slice of the input with only whitespace cut on either side, and an already stripped text is unchanged |
| Text.StripPadded | app.py:225 | whitespace on both sides of a stripped text is exactly what `strip()` removes |
| Text.StripThenSplit | app.py:225-241 | stripping a line before splitting it on a visible delimiter keeps the number of pieces, and every piece strips to the same text |
| Text.SplitThenJoin | app.py:225 | joining the pieces of a split with the same separator restores the text |
| Text.JoinThenSplit | app.py:236 | splitting a join of separator-free pieces gives back exactly those pieces |
| Text.SplitAround | app.py:225 | splitting a text around one separator is splitting each side and concatenating |
| Text.JoinContains | app.py:347-363 | every part occurs in their join |
| Text.Tokens | app.py:325 | every word of a whitespace split is non-empty and contains no whitespace |
| Text.TokensOfWord | app.py:325 | a single whitespace-free word splits into exactly that word |
| Text.TokensOfSpaces | app.py:325 | a text of whitespace alone has no words |
| Text.TokensAround | app.py:325 | a whitespace character cuts: the words of `a`, a space, `b` are the words of `a` followed by those of `b` |
| Text.TokensKeepNonSpace | app.py:325 | the words of a whitespace split, concatenated, are exactly the non-space characters of the text in order |
| Lexicon.DetectCorrection | app.py:100-108 | a message is a correction exactly when some correction marker occurs in its lower-cased text |
| Lexicon.CorrectionLexiconReduces | app.py:102-108 | the same verdict comes from the shorter list without `not`, `now i` and `i meant`, each of which contains a marker that stays (`no` or `i mean`) |
| Lexicon.ActuallyIsCorrection | app.py:100-108 | "Actually, call me Alexander" reads as a correction |
| Lexicon.KnowIsCorrection | app.py:103-108 | "I know Bob" reads as a correction, because `no` occurs inside "know" |
| Lexicon.FilterEmotional | app.py:110-135 | a text is filtered exactly when no critical term occurs in it and some emotion phrase does, both in its lower-cased form |
| Lexicon.Validate | app.py:168-183 | a triple is kept exactly when its confidence is `HIGH` or `MEDIUM`, the space-joined triple is not filtered as emotional, and no opinion word occurs in its lower-cased object |
| Lexicon.ConfidenceGate | app.py:171-172 | any confidence other than `HIGH` and `MEDIUM` is refused, whatever the triple |
| Lexicon.CriticalOverridesEmotion | app.py:127-129 | with an accepted confidence and no opinion word, a critical term makes the triple valid even when an emotion phrase occurs |
| Lexicon.OpinionNotOverridden | app.py:179-181 | an object containing "probably" is refused even when a critical term occurs |
| Lexicon.FirstPattern | app.py:158-164 | the pattern search finds nothing exactly when no pattern occurs in the key, and finds one only when some pattern occurs |
| Lexicon.PatternTiers | app.py:140-155 | every critical pattern carries the critical tier and every important pattern the important tier |
| Lexicon.Prioritize | app.py:137-166 | critical exactly when a critical pattern occurs in the upper-cased relationship; important exactly when none does and an important one does; otherwise normal |
| Lexicon.CriticalBeforeImportant | app.py:158-164 | a relationship matching both lists is critical |
| Lexicon.NameIsCritical | app.py:141 | a lower-case `has_name` relationship is critical, because only the upper-cased relationship is compared |
| Facts.CandidateLines | app.py:225 | every line kept is stripped and contains the pipe delimiter, and there are at most as many as input lines |
| Facts.CandidateLinesOfOne | app.py:225 | one line is kept, stripped, exactly when its stripped text is non-empty and it contains a pipe; with `Facts.CandidateLinesAppend` this fixes the filter on every list, in order |
| Facts.CandidateLinesAppend | app.py:225 | the filter keeps the line order: filtering a concatenation concatenates the filtered parts |
| Facts.ParseLine | app.py:236-241 | a line yields a fact exactly when it splits into at least three pipe-separated fields; the fields are stripped and delimiter-free; a three-field line gets `MEDIUM` |
| Facts.ParseLineStripped | app.py:225-241 | whitespace around a line does not change the fact it is read as |
| Facts.OneLineFacts | app.py:221-241 | a single line containing a pipe yields exactly the fact it is read as, if any |
| Facts.ParsePaddedLine | app.py:225-241 | a line of clean fields, each padded with whitespace other than newlines, is read as the bare fields, with `MEDIUM` when there are three |
| Facts.ParseFacts | app.py:221-241 | the empty text and `NONE` give no facts, and every fact read has stripped fields |
| Facts.NoneGuardRedundant | app.py:222-228 | the early return for `""` and `NONE` gives the same facts as parsing those texts line by line |
| Facts.ParseFactsAround | app.py:225-241 | the facts of two texts joined by a newline are the facts of the first followed by those of the second |
| Facts.MalformedLineYieldsNothing | app.py:225-237 | a line without a pipe, or with fewer than three fields, yields no fact |
| Facts.MalformedLineSkipped | app.py:234-237 | a malformed line between two texts is skipped without changing the facts around it |
| Facts.FormatThenParse | app.py:236-241 | reading a formatted fact with clean fields gives the same fact back |
| Facts.ThreeFieldsDefaultMedium | app.py:241 | a three-field line is read with confidence `MEDIUM` |
| Graph.ExistingValues | app.py:189-194 | the values are exactly the objects of the edges of the slot, archived ones included, with the earliest edge's object first |
| Graph.CheckContradiction | app.py:185-198 | a contradiction is reported exactly when the slot has some edge but none to the new object; the value reported differs from the new object and is the object of the slot's earliest edge |
| Graph.Truthy | app.py:253 | Python's truth test on the lookup result: `None` and the empty string are false, any other string is true |
| Graph.Archive | app.py:204-209 | every edge to the old value is archived with the reason and keeps all its other properties, and every other edge is unchanged |
| Graph.MergeEdge | app.py:212-219 | afterwards the triple has an edge; every existing edge of the triple is that edge with the assignment applied; when the triple was missing, exactly one fresh edge carrying the assignment is appended; other edges are unchanged |
| Graph.UpdateFact | app.py:200-219 | when the two values differ, the old value's edges are archived with the reason and keep their other properties; the new value's edge exists afterwards, marked updated and remembering the old value; when it was missing, one fresh edge with only those two properties set is appended; no other edge changes |
| Graph.StoreAccepted | app.py:247-266 | the store protocol for a validated fact only extends the graph, and the fact's triple has an edge afterwards |
| Graph.StoreFact | app.py:243-266 | an invalid fact leaves the graph unchanged, a valid fact goes through the store protocol and its triple has an edge afterwards, and storing only extends the graph |
| Graph.StoreFacts | app.py:234-268 | storing a list of facts only extends the graph, adding at most one edge per fact, and every fact in the list that passes validation is linked in the result |
| Graph.StoreFactsAppend | app.py:234-268 | the facts are stored one after the other in list order: storing `a + b` is storing `a`, then `b` on the result |
| Graph.StoreFactsOfOne | app.py:234-268 | storing a one-fact list is exactly one loop iteration, `StoreFact` |
| Graph.StoreInKnowledgeGraph | app.py:221-268 | the graph is only extended, and the result is storing the parsed facts with the message's correction flag |
| Graph.MatchingEdges | app.py:276-280 | the matches are exactly the active edges whose subject or object contains the entity, in graph order |
| Graph.MatchingEdgesAppend | app.py:276-280 | the matches keep graph order: the matches of a concatenation are those of the first part followed by those of the second |
| Graph.MatchingEdgesOfOne | app.py:276-280 | a single edge matches exactly when it is active and one of its endpoints contains the entity |
| Graph.MatchingEdgesCounts | app.py:276-280 | every matching edge is returned as many times as it occurs in the graph, and no other edge is returned |
| Graph.QueryKnowledgeGraph | app.py:276-283 | returns the first five matches, or all of them when there are fewer; row k describes the k-th match in graph order; every row describes an active edge touching the entity |
| GraphLaws.ContradictionProtocol | app.py:200-219 | on a contradiction with value x: every edge to x is archived, keeping its other properties, with reason `corrected` exactly when the message is a correction; one new active edge to the new value is appended, marked updated and remembering x, with nothing else set; no other edge changes |
| GraphLaws.PlainMergePath | app.py:257-266 | without a contradiction, the triple's edge exists afterwards and carries the fact's confidence and priority; an existing edge changes in nothing else; it is appended only if it was missing; no other edge changes |
| GraphLaws.MergeIdempotent | app.py:259-266 | merging the same triple twice is merging it once |
| GraphLaws.MergeKeepsUnique | app.py:215 | MERGE never creates a second edge for a triple |
| GraphLaws.StoreAcceptedKeepsUnique | app.py:247-266 | the store protocol keeps at most one edge per triple |
| GraphLaws.StoreFactKeepsUnique | app.py:243-266 | storing a fact, valid or not, keeps at most one edge per triple |
| GraphLaws.StoreFactsKeepsUnique | app.py:234-266 | storing facts keeps at most one edge per triple |
| GraphLaws.StoreTwiceKeepsOneEdge | app.py:251-266 | storing the same fact twice leaves exactly one edge for it, and the second store adds nothing |
| GraphLaws.FirstFactAppends | app.py:258-266 | the first fact about a fresh slot appends one active edge with no previous value |
| GraphLaws.CorrectionSequence | app.py:250-256 | after a value and then a different one, the first edge is archived with the second message's reason, and the second edge is active and remembers the first |
| GraphLaws.SupersedeLastEdge | app.py:200-219 | when the slot's only edge is the last one in the graph, a contradicting fact archives exactly that edge with the message's reason, keeps every earlier edge, and appends one active edge to the new value that remembers the old one |
| GraphLaws.ThirdValueLeavesTwoActive | app.py:189-197 | starting from a graph where the slot is empty, after three distinct values with the first non-empty, the second and the third are both active, and the third remembers the first |
| GraphLaws.EmptyValueNeverSuperseded | app.py:253 | a slot whose first object is empty keeps that edge active next to a later value, which records no previous value |
| GraphLaws.ReassertedValueStaysArchived | app.py:259-266 | re-stating a superseded value reuses its archived edge, and the correcting edge stays active |
| Retrieval.SortDescProperties | app.py:334 | the descending sort is a permutation, is non-increasing in the key, and keeps equal-key elements in input order |
| Retrieval.PositiveCounts | app.py:335 | the score filter keeps every occurrence of an element with a positive key and drops every other one |
| Retrieval.PositiveStable | app.py:335 | the score filter keeps the order of the elements of each positive key |
| Retrieval.RankMemories | app.py:319-336 | the result holds exactly the memories sharing a word with the question, with multiplicity, by non-increasing overlap, with ties in input order |
| Retrieval.FirstIndex | app.py:353-356 | gives the position of the first occurrence, or the length when the element is absent |
| Retrieval.Unseen | app.py:352-358 | keeps exactly the contents not yet seen, each once, in the order of their first occurrence |
| Retrieval.UnseenKeepsFresh | app.py:352-358 | a duplicate-free list disjoint from the seen set is kept whole |
| Retrieval.UnseenIdempotent | app.py:352-358 | deduplicating twice is deduplicating once |
| Retrieval.FreshConversations | app.py:351-359 | the conversations kept below the facts are duplicate-free and are exactly those that differ from the facts text; there are none exactly when no conversation differs from it |
| Retrieval.ContextBlocks | app.py:338-361 | no sections exactly when both inputs are empty; one facts section, first, exactly when there are facts, and every later section is a conversations section; a conversations section exists exactly when some conversation differs from the facts text, and it is non-empty, duplicate-free and holds exactly those conversations |
| Retrieval.FreshConversationInLastBlock | app.py:351-363 | every conversation that differs from the facts text is kept in the last section, which is the conversations section |
| Retrieval.MergeContext | app.py:338-363 | `None` exactly when both inputs are empty; with facts, the text starts with the facts heading and the newline-joined facts; every section occurs in the text |
| Retrieval.RenderShowsConversation | app.py:361 | a conversations section shows each of its conversations |
| Retrieval.ConversationInContext | app.py:351-363 | every conversation other than the facts text itself occurs in the merged context |
| Retrieval.FactsOnlyContext | app.py:344-363 | with facts and no conversation other than the facts text itself, the context is the facts section alone |
| Retrieval.ConversationsContext | app.py:351-363 | with conversations only, the context is the conversations heading followed by their first occurrences, in order, separated by blank lines |
| Retrieval.ConversationsOnlyContext | app.py:351-363 | with distinct conversations only, every conversation appears in order under its heading |
| Retrieval.FullContext | app.py:344-363 | with both, the facts section and the conversations section are joined by a blank line, facts first |
| Orchestrator.NormalizeLabel | app.py:78 | a normalised label has no surrounding whitespace and no lower-case letters, and each of its characters is the upper-case form of the stripped label's character at the same position |
| Orchestrator.NormalizeRecognises | app.py:78 | a tag padded with any whitespace and written in any ASCII case normalises to the upper-case tag |
| Orchestrator.LowerCasePaddedBoth | app.py:78 | the reply `"  both\n"` is read as `BOTH` |
| Orchestrator.NormalizeIdempotent | app.py:317 | normalising a label twice is normalising it once |
| Orchestrator.ProcessAndStoreMemory | app.py:285-295 | conversations are only appended to, and one is appended exactly for `EPISODIC` and `BOTH`; the graph is only extended, and it changes only for `SEMANTIC` and `BOTH`, where it receives the parsed facts |
| Orchestrator.EpisodeText | app.py:285-287 | the stored page is `User: `, the message, a newline and `Assistant: `, then the reply |
| Orchestrator.EpisodeTextInjective | app.py:285-287 | a stored page determines the message and the reply when the message is on one line |
| Orchestrator.UnrecognisedLabelStoresNothing | app.py:289-295 | `NONE` and any unexpected label leave both stores unchanged |
| Orchestrator.BothIsEpisodicThenSemantic | app.py:291-295 | `BOTH` has the same effect as `EPISODIC` followed by `SEMANTIC` |
| Orchestrator.CloseHits | app.py:379 | a content is kept exactly when some hit carries it with a score below the double nearest to 0.7 |
| Orchestrator.CloseHitsAppend | app.py:379 | the filter keeps the order of the hits: filtering a concatenation concatenates the filtered parts |
| Orchestrator.CloseHitsOfOne | app.py:379 | one hit is kept, once, exactly when its score is below the cutoff |
| Orchestrator.BuildContext | app.py:365-384 | a route that is neither factual, contextual nor mixed yields no context; a factual route merges the graph rows alone; a contextual or mixed route merges the close hits ranked by relevance with the graph rows the route consults; when the graph is consulted and has matches, the context opens with them |
| Orchestrator.CloseRelevantHitInContext | app.py:374-381 | for a contextual or mixed route, a hit below the score cutoff that shares a word with the question occurs in the context, unless it equals the facts text shown |
| Orchestrator.FactualIgnoresConversations | app.py:374-381 | a factual route gives the same context whatever the conversation hits |
| Orchestrator.ContextualIgnoresGraph | app.py:374-381 | a contextual route gives the same context whatever the graph and entity |
| Orchestrator.NoSourceGeneralKnowledge | app.py:384-396 | a route that consults nothing leads to the general-knowledge instruction |
| Orchestrator.SystemInstruction | app.py:386-396 | without a context the general-knowledge instruction; with one, the memory preamble, the context verbatim, then the closing sentence |
| Orchestrator.FactsOpenInstruction | app.py:384-391 | facts retrieved for a graph route open the memory block of the system instruction |

## Left out

- The Streamlit interface, configuration and secrets, and `load_resources` (`app.py:41-56`) are plumbing. They are not modelled.
- Calls to the language model are parameters:
  - the classifier, extractor and router labels;
  - the main-entity answer of `query_knowledge_graph`.
  What the model says is outside the code.
- The vector search (`similarity_search_with_score`, k=3) is a parameter: a sequence of (content, score) hits, where the score is the raw value the search returns on the cosine index. Embeddings and nearest-neighbour search are outside the code. Only the 0.7 cutoff is modelled, as the exact value of the double nearest to 0.7.
- Timestamps (`datetime()`, `archived_at`, `timestamp`) are left out. They are written but never read by the memory logic.
- Neo4j row order is unspecified. The model fixes it to edge creation order.
- `lower()`, `upper()`, `strip()` and `split()` are modelled on ASCII letters and on the whitespace characters below 128: space, `\t`, `\n`, `\v`, `\f`, `\r` and `\x1c`-`\x1f`. Python's Unicode case mapping and the non-ASCII whitespace characters are not modelled.
- The `try/except: pass` around each fact (`app.py:235-268`) swallows database and driver errors. The modelled operations are total, so no error path exists to swallow.
- Episode metadata (`memory_type: episodic`) is left out. Retrieval never reads it.
- The final language-model answer of `ask_bot` (`app.py:398`) is left out. The model stops at the system instruction it is given.
- Orchestrator.ProcessAndStoreMemory: the classifier (`app.py:76-78`) and the extractor (`app.py:96-98`) place the user message and the bot reply inside a `ChatPromptTemplate` human message and call it with no variables. A message or reply containing `{` or `}` makes the source raise, so nothing is stored; the model stores according to the label it is given and does not model this failure.
- Orchestrator.BuildContext: the router (`app.py:315-317`) and the entity extractor (`app.py:272-273`) place the question inside a `ChatPromptTemplate` human message. A question containing `{` or `}` makes the source raise before any retrieval; the model builds a context for every question and does not model this failure.
- Orchestrator.SystemInstruction: the source places the context inside a `ChatPromptTemplate` message (`app.py:388-391`), which reads braces as template fields. A context containing `{` or `}` makes the source raise instead of answering. The model concatenates the text and does not model this failure.
- Orchestrator.FactsOpenInstruction: holds for the instruction text as built. When a fact or conversation contains a brace, the source raises before that text reaches the language model, for the reason given above.
