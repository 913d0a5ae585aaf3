/**
 * The two entry points of the memory layer.  After each exchange the
 * classifier's tag decides whether the exchange is kept as a
 * conversation, mined for facts, both, or neither; before each answer the
 * router's tag decides whether the graph, the conversations, or both are
 * consulted, and the merged context becomes the system instruction.
 *
 * The language model's replies (classifier tag, extracted facts, route
 * tag, main entity) and the vector search's scored hits are parameters.
 */
module Orchestrator {
  import opened Wrappers
  import opened Text
  import opened Lexicon
  import opened Facts
  import opened Graph
  import opened Retrieval

  /** `.content.strip().upper()` applied to a tag the model returned. */
  function NormalizeLabel(raw: string): (r: string)
    ensures |r| == |Strip(raw)|
    ensures Stripped(r)
    ensures forall k :: 0 <= k < |r| ==> !('a' <= r[k] <= 'z')
    ensures forall k :: 0 <= k < |r| ==> r[k] == UpperChar(Strip(raw)[k])
  {
    var t := Strip(raw);
    var r := Upper(t);
    assert |t| > 0 ==> r[0] == UpperChar(t[0]) && r[|r| - 1] == UpperChar(t[|t| - 1]);
    r
  }

  /** Normalising a tag a second time changes nothing. */
  lemma NormalizeIdempotent(raw: string)
    ensures NormalizeLabel(NormalizeLabel(raw)) == NormalizeLabel(raw)
  {
    var r := NormalizeLabel(raw);
    assert Strip(r) == r;
    assert Upper(r) == r;
  }

  /** A tag the model pads with whitespace or writes in any case is
      recognised: it normalises to the upper-case tag. */
  lemma NormalizeRecognises(pre: string, word: string, post: string, tag: string)
    requires AllSpace(pre) && AllSpace(post) && Stripped(word)
    requires Upper(word) == tag
    ensures NormalizeLabel(pre + word + post) == tag
  {
    StripPadded(pre, word, post);
  }

  /** For instance, "  both\n" is the tag `BOTH`. */
  lemma LowerCasePaddedBoth()
    ensures NormalizeLabel("  both\n") == "BOTH"
  {
    assert "  both\n" == "  " + "both" + "\n";
    assert Upper("both") == "BOTH";
    NormalizeRecognises("  ", "both", "\n", "BOTH");
  }

  // ---------------------------------------------------------------------
  // Writing: process_and_store_memory
  // ---------------------------------------------------------------------

  predicate WritesEpisode(tag: string) {
    tag in ["EPISODIC", "BOTH"]
  }

  predicate WritesFacts(tag: string) {
    tag in ["SEMANTIC", "BOTH"]
  }

  /** Which store each of the three writing tags writes to. */
  lemma WritingTags()
    ensures WritesEpisode("EPISODIC") && !WritesFacts("EPISODIC")
    ensures !WritesEpisode("SEMANTIC") && WritesFacts("SEMANTIC")
    ensures WritesEpisode("BOTH") && WritesFacts("BOTH")
  {
    assert "EPISODIC"[0] == 'E' && "SEMANTIC"[0] == 'S' && "BOTH"[0] == 'B';
  }

  /** The page content of a stored conversation. */
  function EpisodeText(userMessage: string, botResponse: string): (r: string)
    ensures |r| == |UserLabel| + |userMessage| + |AssistantLabel| + |botResponse|
    ensures r[..|UserLabel|] == UserLabel && r[|UserLabel|..|UserLabel| + |userMessage|] == userMessage
    ensures r[|UserLabel| + |userMessage|..|r| - |botResponse|] == AssistantLabel
    ensures r[|r| - |botResponse|..] == botResponse
  {
    UserLabel + userMessage + AssistantLabel + botResponse
  }

  const UserLabel := "User: "
  const AssistantLabel := "\nAssistant: "

  /** A stored conversation gives back its message and reply when the
      message is on one line. */
  lemma EpisodeTextInjective(u1: string, b1: string, u2: string, b2: string)
    requires '\n' !in u1 && '\n' !in u2
    requires EpisodeText(u1, b1) == EpisodeText(u2, b2)
    ensures u1 == u2 && b1 == b2
  {
    var rest := EpisodeText(u1, b1)[|UserLabel|..];
    assert forall k :: 0 <= k < |u1| ==> rest[k] == u1[k];
    assert forall k :: 0 <= k < |u2| ==> rest[k] == u2[k];
    assert rest[|u1|] == '\n' && rest[|u2|] == '\n';
    FindIs(rest, '\n', |u1|);
    FindIs(rest, '\n', |u2|);
  }

  /** The two stores: the knowledge graph and the conversation index, the
      latter in the order the conversations were added. */
  datatype Memory = Memory(graph: KnowledgeGraph, episodes: seq<string>)

  /**
   * `process_and_store_memory`.  `rawLabel` is the classifier's reply and
   * `rawFacts` the extractor's reply; the extractor's reply is only used
   * when the tag asks for facts.
   */
  function ProcessAndStoreMemory(m: Memory, rawLabel: string, userMessage: string,
                                 botResponse: string, rawFacts: string): (r: Memory)
    ensures var tag := NormalizeLabel(rawLabel);
            r.episodes == m.episodes + (if WritesEpisode(tag) then [EpisodeText(userMessage, botResponse)] else [])
    ensures Extends(m.graph, r.graph)
    ensures !WritesFacts(NormalizeLabel(rawLabel)) ==> r.graph == m.graph
    ensures WritesFacts(NormalizeLabel(rawLabel)) ==>
              r.graph == StoreFacts(m.graph, ParseFacts(Strip(rawFacts)), DetectCorrection(userMessage))
  {
    var tag := NormalizeLabel(rawLabel);
    var episodes := if WritesEpisode(tag) then m.episodes + [EpisodeText(userMessage, botResponse)]
                    else m.episodes;
    var graph := if WritesFacts(tag) then StoreInKnowledgeGraph(m.graph, Strip(rawFacts), userMessage)
                 else m.graph;
    Memory(graph, episodes)
  }

  /** A tag outside the four the classifier is asked for, `NONE`
      included, leaves both stores as they were. */
  lemma UnrecognisedLabelStoresNothing(m: Memory, rawLabel: string, userMessage: string,
                                       botResponse: string, rawFacts: string)
    requires NormalizeLabel(rawLabel) !in ["EPISODIC", "SEMANTIC", "BOTH"]
    ensures ProcessAndStoreMemory(m, rawLabel, userMessage, botResponse, rawFacts) == m
  {
    var r := ProcessAndStoreMemory(m, rawLabel, userMessage, botResponse, rawFacts);
    assert r.episodes == m.episodes + [];
  }

  /** `BOTH` does exactly what `EPISODIC` and then `SEMANTIC` do. */
  lemma BothIsEpisodicThenSemantic(m: Memory, both: string, episodic: string, semantic: string,
                                   userMessage: string, botResponse: string, rawFacts: string)
    requires NormalizeLabel(both) == "BOTH"
    requires NormalizeLabel(episodic) == "EPISODIC"
    requires NormalizeLabel(semantic) == "SEMANTIC"
    ensures ProcessAndStoreMemory(m, both, userMessage, botResponse, rawFacts)
            == ProcessAndStoreMemory(ProcessAndStoreMemory(m, episodic, userMessage, botResponse, rawFacts),
                                     semantic, userMessage, botResponse, rawFacts)
  {
    var episode := EpisodeText(userMessage, botResponse);
    var graph := StoreInKnowledgeGraph(m.graph, Strip(rawFacts), userMessage);
    WritingTags();
    var mid := ProcessAndStoreMemory(m, episodic, userMessage, botResponse, rawFacts);
    assert mid == Memory(m.graph, m.episodes + [episode]);
    assert ProcessAndStoreMemory(mid, semantic, userMessage, botResponse, rawFacts)
           == Memory(graph, m.episodes + [episode]);
    assert ProcessAndStoreMemory(m, both, userMessage, botResponse, rawFacts)
           == Memory(graph, m.episodes + [episode]);
  }

  // ---------------------------------------------------------------------
  // Reading: ask_bot
  // ---------------------------------------------------------------------

  predicate QueriesGraph(tag: string) {
    tag in ["FACTUAL", "MIXED"]
  }

  predicate QueriesEpisodes(tag: string) {
    tag in ["CONTEXTUAL", "MIXED"]
  }

  /** Which store each of the two single-source routes consults. */
  lemma ReadingTags()
    ensures QueriesGraph("FACTUAL") && !QueriesEpisodes("FACTUAL")
    ensures !QueriesGraph("CONTEXTUAL") && QueriesEpisodes("CONTEXTUAL")
  {
    assert "FACTUAL"[0] == 'F' && "CONTEXTUAL"[0] == 'C';
  }

  /** Vector-search hits are kept when their raw search score is below this:
      the double-precision value of the literal `0.7`, written out exactly.
      A score is a double, and every double is a real, so `<` on reals
      agrees with Python's comparison. */
  const ScoreCutoff: real := 0.6999999999999999555910790149937383830547332763671875

  /** The contents of the hits whose score is below the cutoff, in search order. */
  function CloseHits(results: seq<(string, real)>): (r: seq<string>)
    ensures |r| <= |results|
    ensures forall x :: x in r <==> exists k :: 0 <= k < |results| && results[k].0 == x && results[k].1 < ScoreCutoff
  {
    if results == [] then []
    else
      var rest := CloseHits(results[1..]);
      assert forall k :: 1 <= k < |results| ==> results[k] == results[1..][k - 1];
      (if results[0].1 < ScoreCutoff then [results[0].0] else []) + rest
  }

  /** The filter keeps the order of the hits: filtering a concatenation is
      concatenating the filtered parts. */
  lemma {:induction false} CloseHitsAppend(a: seq<(string, real)>, b: seq<(string, real)>)
    ensures CloseHits(a + b) == CloseHits(a) + CloseHits(b)
    decreases |a|
  {
    if a == [] {
      assert a + b == b;
    } else {
      assert (a + b)[0] == a[0];
      assert (a + b)[1..] == a[1..] + b;
      CloseHitsAppend(a[1..], b);
    }
  }

  /** One hit is kept, once, exactly when its score is below the cutoff. */
  lemma CloseHitsOfOne(hit: (string, real))
    ensures CloseHits([hit]) == if hit.1 < ScoreCutoff then [hit.0] else []
  {
    assert [hit][1..] == [];
  }

  /**
   * Steps 1 to 3 of `ask_bot`: the route tag selects the sources, the
   * graph is queried for the model's main entity, the close hits are
   * ranked, and the two are merged.
   */
  function BuildContext(rawRoute: string, g: KnowledgeGraph, rawEntity: string,
                        results: seq<(string, real)>, question: string): (r: Option<string>)
    ensures var tag := NormalizeLabel(rawRoute);
            !QueriesGraph(tag) && !QueriesEpisodes(tag) ==> r == None
    ensures var tag := NormalizeLabel(rawRoute);
            QueriesGraph(tag) && QueryKnowledgeGraph(g, Strip(rawEntity)) != [] ==>
              r.Some? && IsPrefix(FactsHeading + Join(QueryKnowledgeGraph(g, Strip(rawEntity)), FactSeparator), r.value)
    ensures var tag := NormalizeLabel(rawRoute);
            QueriesGraph(tag) && !QueriesEpisodes(tag) ==> r == MergeContext([], QueryKnowledgeGraph(g, Strip(rawEntity)))
    ensures var tag := NormalizeLabel(rawRoute);
            QueriesEpisodes(tag) ==>
              r == MergeContext(RankMemories(CloseHits(results), question),
                                if QueriesGraph(tag) then QueryKnowledgeGraph(g, Strip(rawEntity)) else [])
  {
    var tag := NormalizeLabel(rawRoute);
    var facts := if QueriesGraph(tag) then QueryKnowledgeGraph(g, Strip(rawEntity)) else [];
    var episodic := if QueriesEpisodes(tag) then RankMemories(CloseHits(results), question) else [];
    MergeContext(episodic, facts)
  }

  /** A hit closer than the cutoff that shares a word with the question
      reaches the context of a route that consults the conversations,
      unless it is word for word the facts text shown above it. */
  lemma CloseRelevantHitInContext(rawRoute: string, g: KnowledgeGraph, rawEntity: string,
                                  results: seq<(string, real)>, question: string, k: nat)
    requires QueriesEpisodes(NormalizeLabel(rawRoute))
    requires k < |results| && results[k].1 < ScoreCutoff
    requires Score(question, results[k].0) > 0
    requires QueriesGraph(NormalizeLabel(rawRoute)) && QueryKnowledgeGraph(g, Strip(rawEntity)) != [] ==>
               results[k].0 != Join(QueryKnowledgeGraph(g, Strip(rawEntity)), FactSeparator)
    ensures BuildContext(rawRoute, g, rawEntity, results, question).Some?
    ensures Contains(BuildContext(rawRoute, g, rawEntity, results, question).value, results[k].0)
  {
    var tag := NormalizeLabel(rawRoute);
    var x := results[k].0;
    var hits := CloseHits(results);
    assert x in hits;
    var ranked := RankMemories(hits, question);
    assert multiset(ranked)[x] == multiset(hits)[x];
    assert x in ranked;
    var facts := if QueriesGraph(tag) then QueryKnowledgeGraph(g, Strip(rawEntity)) else [];
    ConversationInContext(ranked, facts, x);
  }

  /** A factual question does not look at the conversations. */
  lemma FactualIgnoresConversations(rawRoute: string, g: KnowledgeGraph, rawEntity: string,
                                    results: seq<(string, real)>, question: string)
    requires NormalizeLabel(rawRoute) == "FACTUAL"
    ensures BuildContext(rawRoute, g, rawEntity, results, question) == BuildContext(rawRoute, g, rawEntity, [], question)
  {
    var facts := QueryKnowledgeGraph(g, Strip(rawEntity));
    ReadingTags();
    assert BuildContext(rawRoute, g, rawEntity, results, question) == MergeContext([], facts);
    assert BuildContext(rawRoute, g, rawEntity, [], question) == MergeContext([], facts);
  }

  /** A contextual question does not look at the graph. */
  lemma ContextualIgnoresGraph(rawRoute: string, g: KnowledgeGraph, rawEntity: string,
                               results: seq<(string, real)>, question: string)
    requires NormalizeLabel(rawRoute) == "CONTEXTUAL"
    ensures BuildContext(rawRoute, g, rawEntity, results, question) == BuildContext(rawRoute, [], "", results, question)
  {
    var episodic := RankMemories(CloseHits(results), question);
    ReadingTags();
    assert BuildContext(rawRoute, g, rawEntity, results, question) == MergeContext(episodic, []);
    assert BuildContext(rawRoute, [], "", results, question) == MergeContext(episodic, []);
  }

  const MemoryPreamble := "Use this memory to answer:\n\n"
  const MemoryClosing := "\n\nAnswer naturally and conversationally."
  const GeneralInstruction := "Answer naturally using your general knowledge."

  /** Step 4 of `ask_bot`: the system instruction, with the context when
      there is any. */
  function SystemInstruction(context: Option<string>): (r: string)
    ensures !Truthy(context) ==> r == GeneralInstruction
    ensures Truthy(context) ==>
              && |r| == |MemoryPreamble| + |context.value| + |MemoryClosing|
              && r[..|MemoryPreamble|] == MemoryPreamble
              && r[|MemoryPreamble|..|MemoryPreamble| + |context.value|] == context.value
              && r[|MemoryPreamble| + |context.value|..] == MemoryClosing
  {
    if Truthy(context) then MemoryPreamble + context.value + MemoryClosing
    else GeneralInstruction
  }

  /** A route that consults nothing answers from general knowledge. */
  lemma NoSourceGeneralKnowledge(rawRoute: string, g: KnowledgeGraph, rawEntity: string,
                                 results: seq<(string, real)>, question: string)
    requires !QueriesGraph(NormalizeLabel(rawRoute)) && !QueriesEpisodes(NormalizeLabel(rawRoute))
    ensures SystemInstruction(BuildContext(rawRoute, g, rawEntity, results, question)) == GeneralInstruction
  {
  }

  lemma PrefixInInstruction(p: string, context: string)
    requires IsPrefix(p, context)
    ensures IsPrefix(MemoryPreamble + p, MemoryPreamble + context + MemoryClosing)
  {
    var instruction := MemoryPreamble + context + MemoryClosing;
    assert instruction[..|MemoryPreamble| + |p|] == MemoryPreamble + context[..|p|];
  }

  /** Facts found for a route that consults the graph open the memory
      block of the instruction. */
  lemma FactsOpenInstruction(rawRoute: string, g: KnowledgeGraph, rawEntity: string,
                             results: seq<(string, real)>, question: string)
    requires QueriesGraph(NormalizeLabel(rawRoute))
    requires QueryKnowledgeGraph(g, Strip(rawEntity)) != []
    ensures IsPrefix(MemoryPreamble + FactsHeading + Join(QueryKnowledgeGraph(g, Strip(rawEntity)), FactSeparator),
                     SystemInstruction(BuildContext(rawRoute, g, rawEntity, results, question)))
  {
    var body := Join(QueryKnowledgeGraph(g, Strip(rawEntity)), FactSeparator);
    var p := FactsHeading + body;
    var context := BuildContext(rawRoute, g, rawEntity, results, question);
    assert Truthy(context);
    PrefixInInstruction(p, context.value);
    AppendAssoc(MemoryPreamble, FactsHeading, body);
  }
}
