/**
 * Retrieval post-processing: ranking conversation memories by word overlap
 * with the question, and merging them with the graph facts into one
 * context block.  A memory is represented by its page content.
 */
module Retrieval {
  import opened Wrappers
  import opened Text

  // ---------------------------------------------------------------------
  // rank_memories_by_relevance
  // ---------------------------------------------------------------------

  /** Relevance of a memory: the number of distinct lower-cased words it
      shares with the question. */
  function Score(question: string, content: string): nat {
    |WordSet(question) * WordSet(content)|
  }

  /** Non-increasing in the key. */
  ghost predicate SortedDesc<T>(key: T -> nat, s: seq<T>) {
    forall i, j :: 0 <= i < j < |s| ==> key(s[i]) >= key(s[j])
  }

  /** The elements of `s` whose key is `n`, in their order in `s`. */
  function WithKey<T>(key: T -> nat, s: seq<T>, n: nat): seq<T> {
    if s == [] then []
    else (if key(s[0]) == n then [s[0]] else []) + WithKey(key, s[1..], n)
  }

  /** The elements of `s` whose key is positive, in their order in `s`. */
  function Positive<T>(key: T -> nat, s: seq<T>): seq<T> {
    if s == [] then []
    else (if key(s[0]) > 0 then [s[0]] else []) + Positive(key, s[1..])
  }

  /** Put `x` after every element whose key is at least its own. */
  function InsertDesc<T>(key: T -> nat, x: T, s: seq<T>): seq<T> {
    if s == [] then [x]
    else if key(s[0]) >= key(x) then [s[0]] + InsertDesc(key, x, s[1..])
    else [x] + s
  }

  /** A stable sort by descending key, as `list.sort(key=..., reverse=True)`. */
  function SortDesc<T>(key: T -> nat, s: seq<T>): seq<T> {
    if s == [] then []
    else InsertDesc(key, s[|s| - 1], SortDesc(key, s[..|s| - 1]))
  }

  lemma {:induction false} WithKeyAppend<T>(key: T -> nat, a: seq<T>, b: seq<T>, n: nat)
    ensures WithKey(key, a + b, n) == WithKey(key, a, n) + WithKey(key, b, n)
    decreases |a|
  {
    if a == [] {
      assert a + b == b;
    } else {
      var ab := a + b;
      var head := if key(a[0]) == n then [a[0]] else [];
      assert ab[0] == a[0] && ab[1..] == a[1..] + b;
      assert WithKey(key, ab, n) == head + WithKey(key, a[1..] + b, n);
      WithKeyAppend(key, a[1..], b, n);
      assert WithKey(key, a, n) == head + WithKey(key, a[1..], n);
      assert head + (WithKey(key, a[1..], n) + WithKey(key, b, n))
             == (head + WithKey(key, a[1..], n)) + WithKey(key, b, n);
    }
  }

  lemma {:induction false} WithKeyNone<T>(key: T -> nat, s: seq<T>, n: nat)
    requires forall k :: 0 <= k < |s| ==> key(s[k]) != n
    ensures WithKey(key, s, n) == []
    decreases |s|
  {
    if s != [] { WithKeyNone(key, s[1..], n); }
  }

  lemma {:induction false} InsertDescPermutes<T>(key: T -> nat, x: T, s: seq<T>)
    ensures multiset(InsertDesc(key, x, s)) == multiset(s) + multiset{x}
    decreases |s|
  {
    if s != [] && key(s[0]) >= key(x) {
      InsertDescPermutes(key, x, s[1..]);
      assert s == [s[0]] + s[1..];
    }
  }

  /** Inserting an element no greater than a bound into a list bounded by it
      keeps the list bounded. */
  lemma {:induction false} InsertDescBelow<T>(key: T -> nat, x: T, s: seq<T>, v: nat)
    requires key(x) <= v
    requires forall k :: 0 <= k < |s| ==> key(s[k]) <= v
    ensures forall k :: 0 <= k < |InsertDesc(key, x, s)| ==> key(InsertDesc(key, x, s)[k]) <= v
    decreases |s|
  {
    if s != [] && key(s[0]) >= key(x) {
      InsertDescBelow(key, x, s[1..], v);
      var rest := InsertDesc(key, x, s[1..]);
      assert InsertDesc(key, x, s) == [s[0]] + rest;
    }
  }

  lemma {:induction false} InsertDescSorted<T>(key: T -> nat, x: T, s: seq<T>)
    requires SortedDesc(key, s)
    ensures SortedDesc(key, InsertDesc(key, x, s))
    decreases |s|
  {
    if s != [] && key(s[0]) >= key(x) {
      InsertDescSorted(key, x, s[1..]);
      InsertDescBelow(key, x, s[1..], key(s[0]));
      var rest := InsertDesc(key, x, s[1..]);
      var r := [s[0]] + rest;
      assert InsertDesc(key, x, s) == r;
      forall i, j | 0 <= i < j < |r| ensures key(r[i]) >= key(r[j]) {
        assert r[j] == rest[j - 1];
        if i > 0 { assert r[i] == rest[i - 1]; }
      }
    }
  }

  lemma {:induction false} InsertDescStable<T>(key: T -> nat, x: T, s: seq<T>, n: nat)
    requires SortedDesc(key, s)
    ensures WithKey(key, InsertDesc(key, x, s), n)
            == WithKey(key, s, n) + (if key(x) == n then [x] else [])
    decreases |s|
  {
    var r := InsertDesc(key, x, s);
    if s == [] {
    } else if key(s[0]) >= key(x) {
      InsertDescStable(key, x, s[1..], n);
      assert r[1..] == InsertDesc(key, x, s[1..]);
    } else {
      assert r[1..] == s;
      if key(x) == n {
        WithKeyNone(key, s, n);
      }
    }
  }

  /** The sort is a permutation, is sorted, and keeps equal keys in input order. */
  lemma SortDescProperties<T>(key: T -> nat, s: seq<T>)
    ensures multiset(SortDesc(key, s)) == multiset(s)
    ensures SortedDesc(key, SortDesc(key, s))
    ensures forall n: nat :: WithKey(key, SortDesc(key, s), n) == WithKey(key, s, n)
  {
    SortDescPermutes(key, s);
    SortDescSorted(key, s);
    forall n: nat ensures WithKey(key, SortDesc(key, s), n) == WithKey(key, s, n) {
      SortDescStable(key, s, n);
    }
  }

  lemma {:induction false} SortDescPermutes<T>(key: T -> nat, s: seq<T>)
    ensures multiset(SortDesc(key, s)) == multiset(s)
    decreases |s|
  {
    if s != [] {
      var init, last := s[..|s| - 1], s[|s| - 1];
      SortDescPermutes(key, init);
      InsertDescPermutes(key, last, SortDesc(key, init));
      assert s == init + [last];
    }
  }

  lemma {:induction false} SortDescSorted<T>(key: T -> nat, s: seq<T>)
    ensures SortedDesc(key, SortDesc(key, s))
    decreases |s|
  {
    if s != [] {
      var init, last := s[..|s| - 1], s[|s| - 1];
      SortDescSorted(key, init);
      InsertDescSorted(key, last, SortDesc(key, init));
    }
  }

  lemma {:induction false} SortDescStable<T>(key: T -> nat, s: seq<T>, n: nat)
    ensures WithKey(key, SortDesc(key, s), n) == WithKey(key, s, n)
    decreases |s|
  {
    if s != [] {
      var init, last := s[..|s| - 1], s[|s| - 1];
      SortDescStable(key, init, n);
      SortDescSorted(key, init);
      InsertDescStable(key, last, SortDesc(key, init), n);
      WithKeyAppend(key, init, [last], n);
      assert s == init + [last];
    }
  }

  lemma {:induction false} PositiveCounts<T>(key: T -> nat, s: seq<T>, x: T)
    ensures multiset(Positive(key, s))[x] == if key(x) > 0 then multiset(s)[x] else 0
    decreases |s|
  {
    if s != [] {
      PositiveCounts(key, s[1..], x);
      var head := if key(s[0]) > 0 then [s[0]] else [];
      var rest := Positive(key, s[1..]);
      assert multiset(Positive(key, s)) == multiset(head) + multiset(rest);
      assert s == [s[0]] + s[1..];
      assert multiset(s) == multiset([s[0]]) + multiset(s[1..]);
    }
  }

  lemma {:induction false} PositiveSorted<T>(key: T -> nat, s: seq<T>)
    requires SortedDesc(key, s)
    ensures SortedDesc(key, Positive(key, s))
    decreases |s|
  {
    if s != [] {
      PositiveSorted(key, s[1..]);
      var rest := Positive(key, s[1..]);
      if key(s[0]) > 0 {
        var r := [s[0]] + rest;
        assert Positive(key, s) == r;
        forall j | 0 < j < |r| ensures key(r[0]) >= key(r[j]) {
          assert r[j] == rest[j - 1];
          PositiveCounts(key, s[1..], r[j]);
          assert r[j] in multiset(rest);
          assert r[j] in multiset(s[1..]);
        }
      }
    }
  }

  lemma {:induction false} PositiveStable<T>(key: T -> nat, s: seq<T>, n: nat)
    ensures WithKey(key, Positive(key, s), n) == if n > 0 then WithKey(key, s, n) else []
    decreases |s|
  {
    if s != [] {
      PositiveStable(key, s[1..], n);
      var rest := Positive(key, s[1..]);
      if key(s[0]) > 0 {
        var r := [s[0]] + rest;
        assert Positive(key, s) == r;
        assert r[0] == s[0] && r[1..] == rest;
        assert WithKey(key, r, n) == (if key(s[0]) == n then [s[0]] else []) + WithKey(key, rest, n);
      } else {
        assert Positive(key, s) == rest;
      }
    }
  }

  /** `(memory, score)` pairs are sorted by this key. */
  function ScoreKey(question: string): string -> nat {
    content => Score(question, content)
  }

  /** `rank_memories_by_relevance`: the memories sharing at least one word
      with the question, by non-increasing score, ties in input order. */
  function RankMemories(memories: seq<string>, question: string): (r: seq<string>)
    ensures forall x :: multiset(r)[x] == if Score(question, x) > 0 then multiset(memories)[x] else 0
    ensures forall i, j :: 0 <= i < j < |r| ==> Score(question, r[i]) >= Score(question, r[j])
    ensures forall n: nat :: WithKey(ScoreKey(question), r, n)
                             == if n > 0 then WithKey(ScoreKey(question), memories, n) else []
  {
    if memories == [] then []
    else
      var key := ScoreKey(question);
      var sorted := SortDesc(key, memories);
      SortDescProperties(key, memories);
      PositiveSorted(key, sorted);
      assert forall x :: multiset(Positive(key, sorted))[x] == if key(x) > 0 then multiset(memories)[x] else 0 by {
        forall x ensures multiset(Positive(key, sorted))[x] == if key(x) > 0 then multiset(memories)[x] else 0 {
          PositiveCounts(key, sorted, x);
        }
      }
      assert forall n: nat :: WithKey(key, Positive(key, sorted), n) == if n > 0 then WithKey(key, memories, n) else [] by {
        forall n: nat ensures WithKey(key, Positive(key, sorted), n) == if n > 0 then WithKey(key, memories, n) else [] {
          PositiveStable(key, sorted, n);
        }
      }
      Positive(key, sorted)
  }

  // ---------------------------------------------------------------------
  // merge_and_deduplicate_context
  // ---------------------------------------------------------------------

  const FactsHeading := "FACTS ABOUT USER:\n"
  const ConversationsHeading := "PAST CONVERSATIONS:\n"
  /** Separator between facts, between conversations, and between sections. */
  const FactSeparator := "\n"
  const SectionSeparator := "\n\n"

  /** Position of the first `x` in `s`, or `|s|` when there is none. */
  function FirstIndex(s: seq<string>, x: string): (i: nat)
    ensures i <= |s|
    ensures i < |s| ==> s[i] == x && x !in s[..i]
    ensures i == |s| <==> x !in s
  {
    if s == [] then 0
    else if s[0] == x then 0
    else
      var i := 1 + FirstIndex(s[1..], x);
      assert s[..i] == [s[0]] + s[1..][..i - 1];
      i
  }

  ghost predicate Distinct(s: seq<string>) {
    forall i, j :: 0 <= i < j < |s| ==> s[i] != s[j]
  }

  /** The loop over episodic memories: keep each content not seen before,
      adding it to the seen set as it is kept. */
  function Unseen(items: seq<string>, seen: set<string>): (r: seq<string>)
    ensures forall x :: x in r <==> x in items && x !in seen
    ensures Distinct(r)
    ensures forall i, j :: 0 <= i < j < |r| ==> FirstIndex(items, r[i]) < FirstIndex(items, r[j])
  {
    if items == [] then []
    else if items[0] in seen then Unseen(items[1..], seen)
    else
      var rest := Unseen(items[1..], seen + {items[0]});
      assert forall k :: 0 <= k < |rest| ==> rest[k] != items[0] && rest[k] in items[1..];
      [items[0]] + rest
  }

  /** Nothing is dropped from a list that is already duplicate-free and
      disjoint from the seen set. */
  lemma {:induction false} UnseenKeepsFresh(items: seq<string>, seen: set<string>)
    requires Distinct(items)
    requires forall k :: 0 <= k < |items| ==> items[k] !in seen
    ensures Unseen(items, seen) == items
    decreases |items|
  {
    if items != [] {
      assert forall k :: 1 <= k < |items| ==> items[k] != items[0];
      UnseenKeepsFresh(items[1..], seen + {items[0]});
    }
  }

  /** Deduplicating twice is deduplicating once. */
  lemma UnseenIdempotent(items: seq<string>, seen: set<string>)
    ensures Unseen(Unseen(items, seen), seen) == Unseen(items, seen)
  {
    UnseenKeepsFresh(Unseen(items, seen), seen);
  }

  datatype ContextBlock =
    | FactsBlock(text: string)
    | ConversationsBlock(conversations: seq<string>)

  function Render(b: ContextBlock): string {
    match b
    case FactsBlock(text) => FactsHeading + text
    case ConversationsBlock(cs) => ConversationsHeading + Join(cs, SectionSeparator)
  }

  /** The sections of the merged context: the facts first, then the
      conversations that were neither repeated nor equal to the facts text. */
  function ContextBlocks(episodic: seq<string>, facts: seq<string>): (r: seq<ContextBlock>)
    ensures r == [] <==> episodic == [] && facts == []
    ensures |r| <= 2
    ensures facts != [] ==> r[0] == FactsBlock(Join(facts, FactSeparator))
    ensures facts == [] ==> forall k :: 0 <= k < |r| ==> r[k].ConversationsBlock?
    ensures forall k :: 0 <= k < |r| && r[k].ConversationsBlock? ==>
              var cs := r[k].conversations;
              cs != [] && Distinct(cs) &&
              forall x :: x in cs <==> x in episodic && (facts != [] ==> x != Join(facts, FactSeparator))
    ensures |r| == (if facts == [] then 0 else 1) + (if HasFreshConversation(episodic, facts) then 1 else 0)
    ensures forall k :: 1 <= k < |r| ==> r[k].ConversationsBlock?
  {
    var factsPart := if facts == [] then [] else [FactsBlock(Join(facts, FactSeparator))];
    var unique := FreshConversations(episodic, facts);
    assert episodic != [] && facts == [] ==> episodic[0] in unique;
    factsPart + (if unique == [] then [] else [ConversationsBlock(unique)])
  }

  /** The conversations kept below the facts: first occurrences, in order,
      of those that differ from the facts text. */
  function FreshConversations(episodic: seq<string>, facts: seq<string>): (r: seq<string>)
    ensures r != [] <==> HasFreshConversation(episodic, facts)
    ensures Distinct(r)
    ensures forall x :: x in r <==> x in episodic && (facts != [] ==> x != Join(facts, FactSeparator))
  {
    var seen: set<string> := if facts == [] then {} else {Join(facts, FactSeparator)};
    UnseenEmpty(episodic, seen);
    Unseen(episodic, seen)
  }

  /** A conversation that differs from the facts text is in the last section,
      which holds the conversations. */
  lemma FreshConversationInLastBlock(episodic: seq<string>, facts: seq<string>, x: string)
    requires x in episodic
    requires facts != [] ==> x != Join(facts, FactSeparator)
    ensures var r := ContextBlocks(episodic, facts);
            r != [] && r[|r| - 1].ConversationsBlock? && x in r[|r| - 1].conversations
  {
    var r := ContextBlocks(episodic, facts);
    assert HasFreshConversation(episodic, facts);
    assert r[|r| - 1].ConversationsBlock?;
  }

  /** Some conversation differs from the facts text shown above it. */
  ghost predicate HasFreshConversation(episodic: seq<string>, facts: seq<string>) {
    exists x :: x in episodic && (facts != [] ==> x != Join(facts, FactSeparator))
  }

  /** Nothing is left exactly when every item was already seen. */
  lemma UnseenEmpty(items: seq<string>, seen: set<string>)
    ensures Unseen(items, seen) != [] <==> exists x :: x in items && x !in seen
  {
    var r := Unseen(items, seen);
    if r != [] {
      assert r[0] in items && r[0] !in seen;
    }
  }

  /** `merge_and_deduplicate_context`: `None` when there is nothing to say. */
  function MergeContext(episodic: seq<string>, facts: seq<string>): (r: Option<string>)
    ensures r.None? <==> episodic == [] && facts == []
    ensures facts != [] ==> r.Some? && IsPrefix(FactsHeading + Join(facts, FactSeparator), r.value)
    ensures r.Some? ==> forall k :: 0 <= k < |ContextBlocks(episodic, facts)| ==>
                          Contains(r.value, Render(ContextBlocks(episodic, facts)[k]))
  {
    var blocks := ContextBlocks(episodic, facts);
    if blocks == [] then None
    else
      var rendered := seq(|blocks|, k requires 0 <= k < |blocks| => Render(blocks[k]));
      assert facts != [] ==> rendered[0] == FactsHeading + Join(facts, FactSeparator);
      assert forall k :: 0 <= k < |blocks| ==> Contains(Join(rendered, SectionSeparator), Render(blocks[k])) by {
        forall k | 0 <= k < |blocks| ensures Contains(Join(rendered, SectionSeparator), Render(blocks[k])) {
          JoinContains(rendered, SectionSeparator, k);
        }
      }
      Some(Join(rendered, SectionSeparator))
  }

  /** A conversations section shows each of its conversations. */
  lemma RenderShowsConversation(cs: seq<string>, i: nat)
    requires i < |cs|
    ensures Contains(Render(ConversationsBlock(cs)), cs[i])
  {
    var body := Join(cs, SectionSeparator);
    var rendered := ConversationsHeading + body;
    JoinContains(cs, SectionSeparator, i);
    assert rendered[|ConversationsHeading|..|ConversationsHeading| + |body|] == body;
    ContainsAt(rendered, body, |ConversationsHeading|);
    ContainsTrans(rendered, body, cs[i]);
  }

  /** Every conversation that is not the facts text itself reaches the
      merged context. */
  lemma ConversationInContext(episodic: seq<string>, facts: seq<string>, x: string)
    requires x in episodic
    requires facts != [] ==> x != Join(facts, FactSeparator)
    ensures MergeContext(episodic, facts).Some?
    ensures Contains(MergeContext(episodic, facts).value, x)
  {
    FreshConversationInLastBlock(episodic, facts, x);
    var blocks := ContextBlocks(episodic, facts);
    var last := blocks[|blocks| - 1];
    var cs := last.conversations;
    var i :| 0 <= i < |cs| && cs[i] == x;
    RenderShowsConversation(cs, i);
    assert last == ConversationsBlock(cs);
    ContainsTrans(MergeContext(episodic, facts).value, Render(last), x);
  }

  /** With facts and no conversation other than the facts text itself, the
      context is the facts section alone. */
  lemma FactsOnlyContext(episodic: seq<string>, facts: seq<string>)
    requires facts != []
    requires forall x :: x in episodic ==> x == Join(facts, FactSeparator)
    ensures MergeContext(episodic, facts) == Some(FactsHeading + Join(facts, FactSeparator))
  {
    var blocks := ContextBlocks(episodic, facts);
    assert blocks == [FactsBlock(Join(facts, FactSeparator))];
  }

  /** With conversations only, the context is the conversations section
      holding their first occurrences, in order. */
  lemma ConversationsContext(episodic: seq<string>)
    requires episodic != []
    ensures MergeContext(episodic, []) == Some(ConversationsHeading + Join(Unseen(episodic, {}), SectionSeparator))
  {
    var unique := Unseen(episodic, {});
    assert episodic[0] in unique;
    assert ContextBlocks(episodic, []) == [ConversationsBlock(unique)];
  }

  /** With duplicate-free conversations only, every one of them is kept, in order. */
  lemma ConversationsOnlyContext(episodic: seq<string>)
    requires episodic != [] && Distinct(episodic)
    ensures MergeContext(episodic, []) == Some(ConversationsHeading + Join(episodic, SectionSeparator))
  {
    UnseenKeepsFresh(episodic, {});
    ConversationsContext(episodic);
  }

  /** With both, the facts section comes first and the conversations
      section second, separated by a blank line. */
  lemma FullContext(episodic: seq<string>, facts: seq<string>)
    requires facts != []
    requires var unique := Unseen(episodic, {Join(facts, FactSeparator)}); unique != []
    ensures MergeContext(episodic, facts)
            == Some((FactsHeading + Join(facts, FactSeparator)) + SectionSeparator
                    + (ConversationsHeading + Join(Unseen(episodic, {Join(facts, FactSeparator)}), SectionSeparator)))
  {
    var unique := Unseen(episodic, {Join(facts, FactSeparator)});
    var blocks := ContextBlocks(episodic, facts);
    assert blocks == [FactsBlock(Join(facts, FactSeparator)), ConversationsBlock(unique)];
    var a, b := Render(blocks[0]), Render(blocks[1]);
    var rendered := seq(|blocks|, k requires 0 <= k < |blocks| => Render(blocks[k]));
    assert rendered == [a, b];
    assert rendered[1..] == [b];
    assert Join(rendered, SectionSeparator) == a + SectionSeparator + b;
  }
}
