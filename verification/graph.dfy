/**
 * The knowledge graph as the memory layer uses it: a sequence of RELATION
 * edges between named entities, in creation order.  Nothing is ever
 * removed; a superseded edge is marked archived.  The Cypher statements of
 * the program become the functions below: MATCH ... SET updates every
 * matching edge in place, MERGE reuses every matching edge or else appends
 * a new one.  Timestamps are not modelled.
 */
module Graph {
  import opened Wrappers
  import opened Text
  import opened Lexicon
  import opened Facts

  /** A RELATION edge `(entity1)-[relationship]->(entity2)` with its properties. */
  datatype Edge = Edge(
    entity1: string, relationship: string, entity2: string,
    archived: bool, archiveReason: Option<string>,
    previousValue: Option<string>, updated: bool,
    confidence: Option<string>, priority: Option<Priority>)

  type KnowledgeGraph = seq<Edge>

  const Corrected: string := "corrected"
  const Updated: string := "updated"

  /** A freshly created edge: no property set yet, so not archived. */
  function NewEdge(entity1: string, relationship: string, entity2: string): Edge {
    Edge(entity1, relationship, entity2, false, None, None, false, None, None)
  }

  predicate Links(e: Edge, entity1: string, relationship: string, entity2: string) {
    e.entity1 == entity1 && e.relationship == relationship && e.entity2 == entity2
  }

  predicate SameLink(a: Edge, b: Edge) {
    Links(b, a.entity1, a.relationship, a.entity2)
  }

  predicate HasLink(g: KnowledgeGraph, entity1: string, relationship: string, entity2: string) {
    exists k :: 0 <= k < |g| && Links(g[k], entity1, relationship, entity2)
  }

  /** The edge leaves `entity1` with type `relationship`. */
  predicate InSlot(e: Edge, entity1: string, relationship: string) {
    e.entity1 == entity1 && e.relationship == relationship
  }

  /** Some edge, archived or not, leaves `entity1` with type `relationship`. */
  predicate HasSlot(g: KnowledgeGraph, entity1: string, relationship: string) {
    exists k :: 0 <= k < |g| && InSlot(g[k], entity1, relationship)
  }

  /** No edge is lost: each edge of `g` is still at its position in `h`,
      linking the same entities, and an archived edge stays archived. */
  ghost predicate Extends(g: KnowledgeGraph, h: KnowledgeGraph) {
    |g| <= |h| && forall k :: 0 <= k < |g| ==> SameLink(g[k], h[k]) && (g[k].archived ==> h[k].archived)
  }

  /** At most one edge per (entity1, relationship, entity2), as MERGE keeps it. */
  ghost predicate UniqueLinks(g: KnowledgeGraph) {
    forall i, j :: 0 <= i < j < |g| ==> !SameLink(g[i], g[j])
  }

  // ---------------------------------------------------------------------
  // check_contradiction
  // ---------------------------------------------------------------------

  /** The position of the earliest `(entity1)-[relationship]->` edge, or
      `|g|` when there is none. */
  function SlotIndex(g: KnowledgeGraph, entity1: string, relationship: string): (i: nat)
    ensures i <= |g|
    ensures i < |g| ==> InSlot(g[i], entity1, relationship)
    ensures forall j :: 0 <= j < i ==> !InSlot(g[j], entity1, relationship)
    ensures i == |g| <==> !HasSlot(g, entity1, relationship)
  {
    if g == [] then 0
    else if InSlot(g[0], entity1, relationship) then 0
    else
      var i := SlotIndex(g[1..], entity1, relationship);
      assert forall j :: 1 <= j < |g| ==> g[j] == g[1..][j - 1];
      1 + i
  }

  /** The objects of all `(entity1)-[relationship]->` edges in store order;
      the lookup does not look at the archived flag. */
  function ExistingValues(g: KnowledgeGraph, entity1: string, relationship: string): (r: seq<string>)
    ensures forall v :: v in r <==> HasLink(g, entity1, relationship, v)
    ensures r == [] <==> !HasSlot(g, entity1, relationship)
    ensures r != [] ==> r[0] == g[SlotIndex(g, entity1, relationship)].entity2
  {
    if g == [] then []
    else
      var rest := ExistingValues(g[1..], entity1, relationship);
      assert forall k :: 1 <= k < |g| ==> g[k] == g[1..][k - 1];
      assert forall v :: HasLink(g[1..], entity1, relationship, v) ==> HasLink(g, entity1, relationship, v);
      assert HasSlot(g[1..], entity1, relationship) ==> HasSlot(g, entity1, relationship);
      if InSlot(g[0], entity1, relationship) then [g[0].entity2] + rest else rest
  }

  /** The value a new fact contradicts: when some `(entity1, relationship)`
      edge exists but none to `entity2`, the object of the first such edge
      (possibly an archived one). */
  function CheckContradiction(g: KnowledgeGraph, entity1: string, relationship: string, entity2: string): (r: Option<string>)
    ensures r.Some? <==> HasSlot(g, entity1, relationship) && !HasLink(g, entity1, relationship, entity2)
    ensures r.Some? ==> r.value != entity2
    ensures r.Some? ==> r.value == g[SlotIndex(g, entity1, relationship)].entity2
  {
    var existing := ExistingValues(g, entity1, relationship);
    if existing != [] && entity2 !in existing then Some(existing[0]) else None
  }

  /** Python's truth test on the lookup result: `None` and "" are false. */
  function Truthy(o: Option<string>): (r: bool)
    ensures r <==> o.Some? && |o.value| > 0
  {
    match o
    case None => false
    case Some(s) => s != ""
  }

  // ---------------------------------------------------------------------
  // Graph writes
  // ---------------------------------------------------------------------

  /** The properties a MERGE ... SET writes: on the plain path the confidence
      and priority, on the update path the `updated` flag and the previous value. */
  datatype Assignment = Stamp(confidence: string, priority: Priority) | Supersede(previous: string)

  function Assign(e: Edge, a: Assignment): Edge {
    match a
    case Stamp(c, p) => e.(confidence := Some(c), priority := Some(p))
    case Supersede(prior) => e.(updated := true, previousValue := Some(prior))
  }

  /** The edge carries what the assignment sets. */
  predicate Carries(e: Edge, a: Assignment) {
    match a
    case Stamp(c, p) => e.confidence == Some(c) && e.priority == Some(p)
    case Supersede(prior) => e.updated && e.previousValue == Some(prior)
  }

  /** MATCH the `(entity1, relationship, oldValue)` edges and SET them archived
      with a reason (app.py:204-209). */
  function Archive(g: KnowledgeGraph, entity1: string, relationship: string, oldValue: string, reason: string): (r: KnowledgeGraph)
    ensures |r| == |g| && Extends(g, r)
    ensures forall k :: 0 <= k < |g| && Links(g[k], entity1, relationship, oldValue) ==>
              r[k] == g[k].(archived := true, archiveReason := Some(reason))
    ensures forall k :: 0 <= k < |g| && !Links(g[k], entity1, relationship, oldValue) ==> r[k] == g[k]
  {
    seq(|g|, k requires 0 <= k < |g| =>
      if Links(g[k], entity1, relationship, oldValue) then g[k].(archived := true, archiveReason := Some(reason)) else g[k])
  }

  /** MERGE the edge `(entity1, relationship, entity2)` and SET the assignment
      on it: every matching edge, archived or not, is reused; only when there
      is none is a new edge appended. */
  function MergeEdge(g: KnowledgeGraph, entity1: string, relationship: string, entity2: string, a: Assignment): (r: KnowledgeGraph)
    ensures Extends(g, r)
    ensures |r| == if HasLink(g, entity1, relationship, entity2) then |g| else |g| + 1
    ensures HasLink(r, entity1, relationship, entity2)
    ensures forall k :: 0 <= k < |r| && Links(r[k], entity1, relationship, entity2) ==> Carries(r[k], a)
    ensures forall k :: 0 <= k < |g| && Links(g[k], entity1, relationship, entity2) ==> r[k] == Assign(g[k], a)
    ensures !HasLink(g, entity1, relationship, entity2) ==> r[|g|] == Assign(NewEdge(entity1, relationship, entity2), a)
    ensures forall k :: 0 <= k < |g| ==> r[k].archived == g[k].archived
    ensures forall k :: 0 <= k < |g| && !Links(g[k], entity1, relationship, entity2) ==> r[k] == g[k]
    ensures !HasLink(g, entity1, relationship, entity2) ==> !r[|g|].archived
  {
    if HasLink(g, entity1, relationship, entity2) then
      seq(|g|, k requires 0 <= k < |g| =>
        if Links(g[k], entity1, relationship, entity2) then Assign(g[k], a) else g[k])
    else
      var r := g + [Assign(NewEdge(entity1, relationship, entity2), a)];
      assert Links(r[|g|], entity1, relationship, entity2);
      r
  }

  /** `update_fact_in_graph`: archive the old edges, then MERGE the new one
      recording the value it replaces (app.py:200-219). */
  function UpdateFact(g: KnowledgeGraph, entity1: string, relationship: string,
                      oldValue: string, newValue: string, reason: string): (r: KnowledgeGraph)
    ensures Extends(g, r)
    ensures |r| == if HasLink(g, entity1, relationship, newValue) then |g| else |g| + 1
    ensures oldValue != newValue ==>
              forall k :: 0 <= k < |g| && Links(g[k], entity1, relationship, oldValue) ==>
                r[k] == g[k].(archived := true, archiveReason := Some(reason))
    ensures forall k :: 0 <= k < |g| && !Links(g[k], entity1, relationship, oldValue) && !Links(g[k], entity1, relationship, newValue)
                        ==> r[k] == g[k]
    ensures HasLink(r, entity1, relationship, newValue)
    ensures forall k :: 0 <= k < |r| && Links(r[k], entity1, relationship, newValue) ==>
              r[k].updated && r[k].previousValue == Some(oldValue)
    ensures !HasLink(g, entity1, relationship, newValue) ==>
              r[|g|] == NewEdge(entity1, relationship, newValue).(updated := true, previousValue := Some(oldValue))
  {
    MergeEdge(Archive(g, entity1, relationship, oldValue, reason), entity1, relationship, newValue, Supersede(oldValue))
  }

  function ArchiveReason(isCorrection: bool): string {
    if isCorrection then Corrected else Updated
  }

  /** The store protocol for a fact that passed validation: supersede the
      contradicting value when there is a truthy one, otherwise merge the
      edge stamped with the fact's confidence and priority. */
  function StoreAccepted(g: KnowledgeGraph, f: Fact, isCorrection: bool): (r: KnowledgeGraph)
    ensures Extends(g, r)
    ensures HasLink(r, f.entity1, f.relationship, f.entity2)
  {
    var priority := Prioritize(f.entity1, f.relationship, f.entity2);
    var contradiction := CheckContradiction(g, f.entity1, f.relationship, f.entity2);
    if Truthy(contradiction) then
      UpdateFact(g, f.entity1, f.relationship, contradiction.value, f.entity2, ArchiveReason(isCorrection))
    else
      MergeEdge(g, f.entity1, f.relationship, f.entity2, Stamp(f.confidence, priority))
  }

  /** One iteration of the loop over candidate facts: a fact that fails
      validation is skipped, any other goes through the store protocol. */
  function StoreFact(g: KnowledgeGraph, f: Fact, isCorrection: bool): (r: KnowledgeGraph)
    ensures Extends(g, r)
    ensures !Validate(f.entity1, f.relationship, f.entity2, f.confidence) ==> r == g
    ensures Validate(f.entity1, f.relationship, f.entity2, f.confidence) ==> r == StoreAccepted(g, f, isCorrection)
    ensures Validate(f.entity1, f.relationship, f.entity2, f.confidence) ==> HasLink(r, f.entity1, f.relationship, f.entity2)
  {
    if !Validate(f.entity1, f.relationship, f.entity2, f.confidence) then g
    else StoreAccepted(g, f, isCorrection)
  }

  /** The facts of one extractor answer, stored one after the other. */
  function StoreFacts(g: KnowledgeGraph, facts: seq<Fact>, isCorrection: bool): (r: KnowledgeGraph)
    ensures Extends(g, r)
    ensures |r| <= |g| + |facts|
    ensures forall f :: f in facts && Validate(f.entity1, f.relationship, f.entity2, f.confidence) ==>
              HasLink(r, f.entity1, f.relationship, f.entity2)
    decreases |facts|
  {
    if facts == [] then g
    else StoreFacts(StoreFact(g, facts[0], isCorrection), facts[1..], isCorrection)
  }

  /** Storing a list is storing its first part, then its second part, so the
      facts of one answer are stored in their order. */
  lemma {:induction false} StoreFactsAppend(g: KnowledgeGraph, a: seq<Fact>, b: seq<Fact>, c: bool)
    ensures StoreFacts(g, a + b, c) == StoreFacts(StoreFacts(g, a, c), b, c)
    decreases |a|
  {
    if a == [] {
      assert a + b == b;
    } else {
      assert (a + b)[1..] == a[1..] + b;
      StoreFactsAppend(StoreFact(g, a[0], c), a[1..], b, c);
    }
  }

  /** A one-fact list is one iteration of the loop. */
  lemma StoreFactsOfOne(g: KnowledgeGraph, f: Fact, c: bool)
    ensures StoreFacts(g, [f], c) == StoreFact(g, f, c)
  {
    assert [f][1..] == [];
  }

  /** `store_in_knowledge_graph`: parse the extractor answer and store each
      fact; the archive reason is "corrected" when the user message reads as
      a correction (app.py:221-268). */
  function StoreInKnowledgeGraph(g: KnowledgeGraph, factsText: string, userMessage: string): (r: KnowledgeGraph)
    ensures Extends(g, r)
    ensures r == StoreFacts(g, ParseFacts(factsText), DetectCorrection(userMessage))
  {
    if factsText == "" || factsText == NoFactsAnswer then g
    else
      var lines := CandidateLines(Split(factsText, '\n'));
      if lines == [] then g
      else StoreFacts(g, FactsOfLines(lines), DetectCorrection(userMessage))
  }

  // ---------------------------------------------------------------------
  // query_knowledge_graph
  // ---------------------------------------------------------------------

  const QueryLimit: nat := 5

  /** The entity occurs in either endpoint's name (Cypher `CONTAINS`). */
  predicate Touches(e: Edge, entity: string) {
    Contains(e.entity1, entity) || Contains(e.entity2, entity)
  }

  /** The active edges touching the entity, in store order. */
  function MatchingEdges(g: KnowledgeGraph, entity: string): (r: seq<Edge>)
    ensures forall k :: 0 <= k < |r| ==> !r[k].archived && Touches(r[k], entity) && r[k] in g
    ensures forall k :: 0 <= k < |g| && !g[k].archived && Touches(g[k], entity) ==> g[k] in r
  {
    if g == [] then []
    else
      var rest := MatchingEdges(g[1..], entity);
      assert forall k :: 1 <= k < |g| ==> g[k] == g[1..][k - 1];
      if !g[0].archived && Touches(g[0], entity) then [g[0]] + rest else rest
  }

  /** Matching distributes over concatenation: the matches of a graph are
      those of its first part followed by those of the rest. */
  lemma {:induction false} MatchingEdgesAppend(a: KnowledgeGraph, b: KnowledgeGraph, entity: string)
    ensures MatchingEdges(a + b, entity) == MatchingEdges(a, entity) + MatchingEdges(b, entity)
    decreases |a|
  {
    if a == [] {
      assert a + b == b;
    } else {
      assert (a + b)[0] == a[0];
      assert (a + b)[1..] == a[1..] + b;
      MatchingEdgesAppend(a[1..], b, entity);
    }
  }

  /** Each matching edge is returned as often as it occurs in the graph,
      and no other edge is returned: the query reports every relationship
      once. */
  lemma {:induction false} MatchingEdgesCounts(g: KnowledgeGraph, entity: string, e: Edge)
    ensures multiset(MatchingEdges(g, entity))[e] == if !e.archived && Touches(e, entity) then multiset(g)[e] else 0
    decreases |g|
  {
    if g != [] {
      MatchingEdgesCounts(g[1..], entity, e);
      var head := if !g[0].archived && Touches(g[0], entity) then [g[0]] else [];
      assert MatchingEdges(g, entity) == head + MatchingEdges(g[1..], entity);
      assert g == [g[0]] + g[1..];
      assert multiset(g) == multiset{g[0]} + multiset(g[1..]);
    }
  }

  /** A single edge matches exactly when it is active and touches the entity. */
  lemma MatchingEdgesOfOne(e: Edge, entity: string)
    ensures MatchingEdges([e], entity) == if !e.archived && Touches(e, entity) then [e] else []
  {
    assert [e][1..] == [];
  }

  /** How a result row is rendered for the answer prompt. */
  function Describe(e: Edge): string {
    e.entity1 + " " + e.relationship + " " + e.entity2
  }

  /** Each edge rendered, in order. */
  function DescribeAll(es: seq<Edge>): (r: seq<string>)
    ensures |r| == |es|
    ensures forall k :: 0 <= k < |r| ==> r[k] == Describe(es[k])
  {
    if es == [] then [] else [Describe(es[0])] + DescribeAll(es[1..])
  }

  /** The facts read back for a question: at most five active edges touching
      the entity, rendered as "entity1 relationship entity2".  All of them
      when there are at most five. */
  function QueryKnowledgeGraph(g: KnowledgeGraph, entity: string): (r: seq<string>)
    ensures |r| == if |MatchingEdges(g, entity)| < QueryLimit then |MatchingEdges(g, entity)| else QueryLimit
    ensures forall k :: 0 <= k < |r| ==>
              exists j :: 0 <= j < |g| && !g[j].archived && Touches(g[j], entity) && r[k] == Describe(g[j])
    ensures forall j :: 0 <= j < |g| && !g[j].archived && Touches(g[j], entity) && |MatchingEdges(g, entity)| <= QueryLimit
              ==> Describe(g[j]) in r
    ensures forall k :: 0 <= k < |r| ==> r[k] == Describe(MatchingEdges(g, entity)[k])
  {
    var matches := MatchingEdges(g, entity);
    var shown := if |matches| < QueryLimit then matches else matches[..QueryLimit];
    assert forall k :: 0 <= k < |shown| ==> shown[k] == matches[k];
    DescribeAll(shown)
  }
}
