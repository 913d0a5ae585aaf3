/**
 * Properties of the contradiction and archival protocol, stated over the
 * edge-sequence model of the knowledge graph.
 */
module GraphLaws {
  import opened Wrappers
  import opened Lexicon
  import opened Facts
  import opened Graph

  predicate IsValid(f: Fact) {
    Validate(f.entity1, f.relationship, f.entity2, f.confidence)
  }

  /** Equal link positions keep the links unique. */
  lemma UniqueUnderSameLinks(g: KnowledgeGraph, h: KnowledgeGraph)
    requires UniqueLinks(g) && |g| == |h|
    requires forall k :: 0 <= k < |g| ==> SameLink(g[k], h[k])
    ensures UniqueLinks(h)
  {
  }

  /** In a graph with unique links, two edges linking the same triple are one. */
  lemma UniqueSlotIndex(g: KnowledgeGraph, j: nat, k: nat)
    requires UniqueLinks(g) && j < |g| && k < |g| && SameLink(g[j], g[k])
    ensures j == k
  {
  }

  /** MERGE never creates a second edge for the same triple. */
  lemma MergeKeepsUnique(g: KnowledgeGraph, entity1: string, relationship: string, entity2: string, a: Assignment)
    requires UniqueLinks(g)
    ensures UniqueLinks(MergeEdge(g, entity1, relationship, entity2, a))
  {
    var r := MergeEdge(g, entity1, relationship, entity2, a);
    if !HasLink(g, entity1, relationship, entity2) {
      assert Links(r[|g|], entity1, relationship, entity2);
      forall i, j | 0 <= i < j < |r| ensures !SameLink(r[i], r[j]) {
        if j == |g| {
          assert !Links(g[i], entity1, relationship, entity2);
        }
      }
    }
  }

  /** The store protocol keeps at most one edge per (entity1, relationship, entity2). */
  lemma StoreAcceptedKeepsUnique(g: KnowledgeGraph, f: Fact, isCorrection: bool)
    requires UniqueLinks(g)
    ensures UniqueLinks(StoreAccepted(g, f, isCorrection))
  {
    var c := CheckContradiction(g, f.entity1, f.relationship, f.entity2);
    if Truthy(c) {
      var g1 := Archive(g, f.entity1, f.relationship, c.value, ArchiveReason(isCorrection));
      UniqueUnderSameLinks(g, g1);
      MergeKeepsUnique(g1, f.entity1, f.relationship, f.entity2, Supersede(c.value));
    } else {
      MergeKeepsUnique(g, f.entity1, f.relationship, f.entity2,
                       Stamp(f.confidence, Prioritize(f.entity1, f.relationship, f.entity2)));
    }
  }

  /** Storing a fact keeps at most one edge per (entity1, relationship, entity2). */
  lemma StoreFactKeepsUnique(g: KnowledgeGraph, f: Fact, isCorrection: bool)
    requires UniqueLinks(g)
    ensures UniqueLinks(StoreFact(g, f, isCorrection))
  {
    if IsValid(f) {
      StoreAcceptedKeepsUnique(g, f, isCorrection);
    }
  }

  lemma {:induction false} StoreFactsKeepsUnique(g: KnowledgeGraph, facts: seq<Fact>, isCorrection: bool)
    requires UniqueLinks(g)
    ensures UniqueLinks(StoreFacts(g, facts, isCorrection))
    decreases |facts|
  {
    if facts != [] {
      StoreFactKeepsUnique(g, facts[0], isCorrection);
      StoreFactsKeepsUnique(StoreFact(g, facts[0], isCorrection), facts[1..], isCorrection);
    }
  }

  /** The update path.  When a valid fact finds a contradicting value `x`
      (an existing object of the same entity and relationship), every edge
      to `x` is archived with reason "corrected" exactly when the message
      read as a correction and "updated" otherwise, keeping its other
      properties; a new active edge to the new value records `x` as its
      previous value and carries nothing else; and nothing else changes. */
  lemma ContradictionProtocol(g: KnowledgeGraph, f: Fact, isCorrection: bool)
    requires Truthy(CheckContradiction(g, f.entity1, f.relationship, f.entity2))
    ensures var x := CheckContradiction(g, f.entity1, f.relationship, f.entity2).value;
            var r := StoreAccepted(g, f, isCorrection);
            && HasLink(g, f.entity1, f.relationship, x)
            && |r| == |g| + 1
            && (forall k :: 0 <= k < |g| && Links(g[k], f.entity1, f.relationship, x) ==>
                  r[k] == g[k].(archived := true, archiveReason := r[k].archiveReason)
                  && r[k].archived
                  && (r[k].archiveReason == Some(Corrected) <==> isCorrection)
                  && (r[k].archiveReason == Some(Updated) <==> !isCorrection))
            && (forall k :: 0 <= k < |g| && !Links(g[k], f.entity1, f.relationship, x) ==> r[k] == g[k])
            && r[|g|] == NewEdge(f.entity1, f.relationship, f.entity2).(updated := true, previousValue := Some(x))
  {
    var x := CheckContradiction(g, f.entity1, f.relationship, f.entity2).value;
    var g1 := Archive(g, f.entity1, f.relationship, x, ArchiveReason(isCorrection));
    assert !HasLink(g1, f.entity1, f.relationship, f.entity2) by {
      forall k | 0 <= k < |g1| ensures !Links(g1[k], f.entity1, f.relationship, f.entity2) {
        assert SameLink(g[k], g1[k]);
      }
    }
  }

  /** The plain path.  With no truthy contradiction the fact's edge is
      merged: it exists afterwards carrying the fact's confidence and
      priority, it is appended only if it was missing, a reused edge keeps its
      other properties, and no other edge changes. */
  lemma PlainMergePath(g: KnowledgeGraph, f: Fact, isCorrection: bool)
    requires !Truthy(CheckContradiction(g, f.entity1, f.relationship, f.entity2))
    ensures var r := StoreAccepted(g, f, isCorrection);
            && HasLink(r, f.entity1, f.relationship, f.entity2)
            && |r| == (if HasLink(g, f.entity1, f.relationship, f.entity2) then |g| else |g| + 1)
            && (forall k :: 0 <= k < |r| && Links(r[k], f.entity1, f.relationship, f.entity2) ==>
                  r[k].confidence == Some(f.confidence)
                  && r[k].priority == Some(Prioritize(f.entity1, f.relationship, f.entity2)))
            && (forall k :: 0 <= k < |g| && !Links(g[k], f.entity1, f.relationship, f.entity2) ==> r[k] == g[k])
            && (forall k :: 0 <= k < |g| && Links(g[k], f.entity1, f.relationship, f.entity2) ==>
                  r[k] == g[k].(confidence := r[k].confidence, priority := r[k].priority))
  {
  }

  /** MERGE is idempotent. */
  lemma MergeIdempotent(g: KnowledgeGraph, entity1: string, relationship: string, entity2: string, a: Assignment)
    ensures var once := MergeEdge(g, entity1, relationship, entity2, a);
            MergeEdge(once, entity1, relationship, entity2, a) == once
  {
    var once := MergeEdge(g, entity1, relationship, entity2, a);
    var twice := MergeEdge(once, entity1, relationship, entity2, a);
    assert |twice| == |once|;
    forall k | 0 <= k < |once| ensures twice[k] == once[k] {
      if Links(once[k], entity1, relationship, entity2) {
        match a {
          case Stamp(c, p) =>
          case Supersede(prior) =>
        }
      }
    }
  }

  /** Storing the same valid fact twice leaves exactly one edge for it, and
      the second store adds no edge. */
  lemma StoreTwiceKeepsOneEdge(g: KnowledgeGraph, f: Fact, c1: bool, c2: bool)
    requires UniqueLinks(g)
    ensures var r1 := StoreAccepted(g, f, c1);
            var r2 := StoreAccepted(r1, f, c2);
            && |r2| == |r1|
            && exists k: nat :: OnlyLinkAt(r2, f.entity1, f.relationship, f.entity2, k)
  {
    var r1 := StoreAccepted(g, f, c1);
    StoreAcceptedKeepsUnique(g, f, c1);
    assert !Truthy(CheckContradiction(r1, f.entity1, f.relationship, f.entity2));
    var r2 := StoreAccepted(r1, f, c2);
    var a := Stamp(f.confidence, Prioritize(f.entity1, f.relationship, f.entity2));
    assert r2 == MergeEdge(r1, f.entity1, f.relationship, f.entity2, a);
    assert |r2| == |r1|;
    StoreAcceptedKeepsUnique(r1, f, c2);
    var k :| 0 <= k < |r2| && Links(r2[k], f.entity1, f.relationship, f.entity2);
    OnlyLinkIndex(r2, f.entity1, f.relationship, f.entity2, k);
  }

  /** The edge at `k` is the one and only edge for the triple. */
  ghost predicate OnlyLinkAt(g: KnowledgeGraph, entity1: string, relationship: string, entity2: string, k: nat) {
    && k < |g| && Links(g[k], entity1, relationship, entity2)
    && forall j :: 0 <= j < |g| && Links(g[j], entity1, relationship, entity2) ==> j == k
  }

  /** In a graph without duplicate triples, an edge for a triple is the only one. */
  lemma OnlyLinkIndex(g: KnowledgeGraph, entity1: string, relationship: string, entity2: string, k: nat)
    requires UniqueLinks(g) && k < |g| && Links(g[k], entity1, relationship, entity2)
    ensures OnlyLinkAt(g, entity1, relationship, entity2, k)
  {
    forall j | 0 <= j < |g| && Links(g[j], entity1, relationship, entity2) ensures j == k {
      UniqueSlotIndex(g, j, k);
    }
  }

  // ---------------------------------------------------------------------
  // Sequences of facts about one (entity1, relationship) slot
  // ---------------------------------------------------------------------

  /** Two valid facts about the same entity and relationship. */
  predicate SameSlot(a: Fact, b: Fact) {
    a.entity1 == b.entity1 && a.relationship == b.relationship
  }

  /** The first fact about a fresh slot appends one active edge, stamped. */
  lemma FirstFactAppends(g: KnowledgeGraph, f: Fact, isCorrection: bool)
    requires !HasSlot(g, f.entity1, f.relationship)
    ensures var r := StoreAccepted(g, f, isCorrection);
            && r[..|g|] == g && |r| == |g| + 1
            && Links(r[|g|], f.entity1, f.relationship, f.entity2) && !r[|g|].archived
            && r[|g|].previousValue == None
  {
    assert !HasLink(g, f.entity1, f.relationship, f.entity2);
    var r := StoreAccepted(g, f, isCorrection);
    assert r == g + [Assign(NewEdge(f.entity1, f.relationship, f.entity2),
                            Stamp(f.confidence, Prioritize(f.entity1, f.relationship, f.entity2)))];
  }

  lemma PrefixKept(g: KnowledgeGraph, r: KnowledgeGraph)
    requires |g| <= |r| && forall k :: 0 <= k < |g| ==> r[k] == g[k]
    ensures r[..|g|] == g
  {
  }

  /** A slot whose only edge was just appended: its object is the value
      any other object contradicts. */
  lemma SingleSlotEdge(g: KnowledgeGraph, g1: KnowledgeGraph, entity1: string, relationship: string, v: string, w: string)
    requires !HasSlot(g, entity1, relationship)
    requires |g1| == |g| + 1 && g1[..|g|] == g && Links(g1[|g|], entity1, relationship, v)
    ensures HasSlot(g1, entity1, relationship)
    ensures CheckContradiction(g1, entity1, relationship, w) == if w == v then None else Some(v)
  {
    assert forall k :: 0 <= k < |g| ==> g1[k] == g[k];
    assert g1[|g|].entity1 == entity1 && g1[|g|].relationship == relationship;
    if w != v {
      assert !HasLink(g1, entity1, relationship, w);
    } else {
      assert HasLink(g1, entity1, relationship, w);
    }
  }

  /** A correction of a fresh slot: after "O1" then a different "O2", the
      O1 edge is archived (with the reason of the second message) and the O2
      edge is active and remembers O1; the rest of the graph is untouched. */
  lemma CorrectionSequence(g: KnowledgeGraph, first: Fact, second: Fact, c1: bool, c2: bool)
    requires SameSlot(first, second)
    requires first.entity2 != second.entity2 && first.entity2 != ""
    requires !HasSlot(g, first.entity1, first.relationship)
    ensures var r := StoreAccepted(StoreAccepted(g, first, c1), second, c2);
            && |r| == |g| + 2 && r[..|g|] == g
            && Links(r[|g|], first.entity1, first.relationship, first.entity2)
            && r[|g|].archived && r[|g|].archiveReason == Some(ArchiveReason(c2))
            && Links(r[|g| + 1], first.entity1, first.relationship, second.entity2)
            && !r[|g| + 1].archived && r[|g| + 1].previousValue == Some(first.entity2)
  {
    var e1, rel := first.entity1, first.relationship;
    FirstFactAppends(g, first, c1);
    var g1 := StoreAccepted(g, first, c1);
    assert forall k :: 0 <= k < |g| ==> g1[k] == g[k];
    SingleSlotEdge(g, g1, e1, rel, first.entity2, second.entity2);
    assert forall k :: 0 <= k < |g| ==> !Links(g1[k], e1, rel, first.entity2);
    SupersedeLastEdge(g1, second, c2, first.entity2);
    var r := StoreAccepted(g1, second, c2);
    assert r[..|g|] == g by {
      assert forall k :: 0 <= k < |g| ==> r[k] == g1[k] == g[k];
      PrefixKept(g, r);
    }
  }

  /** The second step of a correction: when the slot's only edge is the
      last one, a contradicting fact archives exactly that edge and appends
      the new value after it. */
  lemma SupersedeLastEdge(g1: KnowledgeGraph, f: Fact, c: bool, v: string)
    requires |g1| > 0 && v != "" && v != f.entity2
    requires CheckContradiction(g1, f.entity1, f.relationship, f.entity2) == Some(v)
    requires Links(g1[|g1| - 1], f.entity1, f.relationship, v)
    requires forall k :: 0 <= k < |g1| - 1 ==> !Links(g1[k], f.entity1, f.relationship, v)
    ensures var r := StoreAccepted(g1, f, c);
            && |r| == |g1| + 1
            && (forall k :: 0 <= k < |g1| - 1 ==> r[k] == g1[k])
            && Links(r[|g1| - 1], f.entity1, f.relationship, v)
            && r[|g1| - 1].archived && r[|g1| - 1].archiveReason == Some(ArchiveReason(c))
            && Links(r[|g1|], f.entity1, f.relationship, f.entity2)
            && !r[|g1|].archived && r[|g1|].previousValue == Some(v)
  {
    var r := StoreAccepted(g1, f, c);
    assert r == UpdateFact(g1, f.entity1, f.relationship, v, f.entity2, ArchiveReason(c));
    assert !HasLink(g1, f.entity1, f.relationship, f.entity2);
    var n := |g1| - 1;
    assert r[n] == g1[n].(archived := true, archiveReason := Some(ArchiveReason(c)));
  }

  /** The one-active-edge rule does not hold when the database returns rows
      in creation order.  The contradiction lookup also sees archived edges
      and picks the first row, so a third value archives the long-archived
      first one again, and the second value stays active beside the third. */
  lemma ThirdValueLeavesTwoActive(g: KnowledgeGraph, a: Fact, b: Fact, c: Fact, ca: bool, cb: bool, cc: bool)
    requires SameSlot(a, b) && SameSlot(a, c)
    requires a.entity2 != b.entity2 && a.entity2 != c.entity2 && b.entity2 != c.entity2
    requires a.entity2 != ""
    requires !HasSlot(g, a.entity1, a.relationship)
    ensures var r := StoreAccepted(StoreAccepted(StoreAccepted(g, a, ca), b, cb), c, cc);
            && |r| == |g| + 3
            && Links(r[|g| + 1], a.entity1, a.relationship, b.entity2) && !r[|g| + 1].archived
            && Links(r[|g| + 2], a.entity1, a.relationship, c.entity2) && !r[|g| + 2].archived
            && r[|g| + 2].previousValue == Some(a.entity2)
  {
    CorrectionSequence(g, a, b, ca, cb);
    SupersedeAfterTwo(g, StoreAccepted(StoreAccepted(g, a, ca), b, cb), c, cc, a.entity2, b.entity2);
  }

  /** The third step of the scenario above, over any graph of that shape. */
  lemma SupersedeAfterTwo(g: KnowledgeGraph, g2: KnowledgeGraph, c: Fact, cc: bool, va: string, vb: string)
    requires !HasSlot(g, c.entity1, c.relationship)
    requires |g2| == |g| + 2 && g2[..|g|] == g
    requires Links(g2[|g|], c.entity1, c.relationship, va) && va != ""
    requires Links(g2[|g| + 1], c.entity1, c.relationship, vb) && !g2[|g| + 1].archived
    requires c.entity2 != va && c.entity2 != vb && va != vb
    ensures var r := StoreAccepted(g2, c, cc);
            && |r| == |g| + 3
            && Links(r[|g| + 1], c.entity1, c.relationship, vb) && !r[|g| + 1].archived
            && Links(r[|g| + 2], c.entity1, c.relationship, c.entity2) && !r[|g| + 2].archived
            && r[|g| + 2].previousValue == Some(va)
  {
    var e1, rel := c.entity1, c.relationship;
    assert forall k :: 0 <= k < |g| ==> g2[k] == g[k];
    assert HasSlot(g2, e1, rel);
    assert !HasLink(g2, e1, rel, c.entity2);
    assert SlotIndex(g2, e1, rel) == |g|;
    assert CheckContradiction(g2, e1, rel, c.entity2) == Some(va);
    var archived := Archive(g2, e1, rel, va, ArchiveReason(cc));
    assert StoreAccepted(g2, c, cc) == MergeEdge(archived, e1, rel, c.entity2, Supersede(va));
    assert archived[|g| + 1] == g2[|g| + 1];
    assert !HasLink(archived, e1, rel, c.entity2) by {
      assert forall k :: 0 <= k < |g2| ==> SameLink(g2[k], archived[k]);
    }
  }

  /** Python's truth test reads an empty existing value as "no contradiction":
      a later value for a slot whose first object is "" is merged beside it,
      and both edges stay active. */
  lemma EmptyValueNeverSuperseded(g: KnowledgeGraph, first: Fact, second: Fact, c1: bool, c2: bool)
    requires SameSlot(first, second)
    requires first.entity2 == "" && second.entity2 != ""
    requires !HasSlot(g, first.entity1, first.relationship)
    ensures var r := StoreAccepted(StoreAccepted(g, first, c1), second, c2);
            && |r| == |g| + 2
            && Links(r[|g|], first.entity1, first.relationship, "") && !r[|g|].archived
            && Links(r[|g| + 1], first.entity1, first.relationship, second.entity2) && !r[|g| + 1].archived
            && r[|g| + 1].previousValue == None
  {
    var e1, rel, v := first.entity1, first.relationship, second.entity2;
    FirstFactAppends(g, first, c1);
    var g1 := StoreAccepted(g, first, c1);
    SingleSlotEdge(g, g1, e1, rel, "", v);
    forall k | 0 <= k < |g1| ensures !Links(g1[k], e1, rel, v) {
      if k < |g| {
        assert g1[k] == g[k] && !InSlot(g[k], e1, rel);
      }
    }
    var r := StoreAccepted(g1, second, c2);
    assert r == MergeEdge(g1, e1, rel, v, Stamp(second.confidence, Prioritize(e1, rel, v)));
    assert r[|g|] == g1[|g|];
  }

  /** Re-stating a superseded value does not bring it back: after a
      correction, storing the first fact again finds its (archived) edge,
      reuses it without clearing the flag, and the corrected edge stays active. */
  lemma ReassertedValueStaysArchived(g: KnowledgeGraph, first: Fact, second: Fact, c1: bool, c2: bool, c3: bool)
    requires SameSlot(first, second)
    requires first.entity2 != second.entity2 && first.entity2 != ""
    requires !HasSlot(g, first.entity1, first.relationship)
    ensures var r := StoreAccepted(StoreAccepted(StoreAccepted(g, first, c1), second, c2), first, c3);
            && |r| == |g| + 2
            && Links(r[|g|], first.entity1, first.relationship, first.entity2) && r[|g|].archived
            && Links(r[|g| + 1], first.entity1, first.relationship, second.entity2) && !r[|g| + 1].archived
  {
    CorrectionSequence(g, first, second, c1, c2);
    var g2 := StoreAccepted(StoreAccepted(g, first, c1), second, c2);
    assert HasLink(g2, first.entity1, first.relationship, first.entity2);
    assert CheckContradiction(g2, first.entity1, first.relationship, first.entity2).None?;
  }
}
