/**
 * donut/utils.py: `flat_tags_to_hierarchy`, which interleaves the sorted
 * tags of each category with level markers telling the page template where
 * a nested list opens and closes.
 */
module Hierarchy {
  import opened Text
  import opened Seqs

  /** A `(keyword, count)` pair. */
  type Tag = (string, int)

  const LevelUp: Tag := ("L+", 0)
  const LevelDown: Tag := ("L-", 0)

  predicate IsMarker(t: Tag)
  {
    t == LevelUp || t == LevelDown
  }

  predicate IsLeaf(t: Tag)
  {
    !IsMarker(t)
  }

  /** The nesting depth of a keyword: its number of `:`. */
  function Depth(t: Tag): nat
  {
    CountChar(t.0, ':')
  }

  function Downs(n: nat): (r: seq<Tag>)
    ensures |r| == n && forall i :: 0 <= i < n ==> r[i] == LevelDown
  {
    seq(n, _ => LevelDown)
  }

  /** The level after a prefix of the keywords: the depth of its last keyword. */
  function LastLevel(tags: seq<Tag>): nat
  {
    if tags == [] then 0 else Depth(tags[|tags| - 1])
  }

  /** What one keyword emits when the running level is `level`: at most one L+, or enough L-, then itself. */
  function Step(level: nat, t: Tag): seq<Tag>
  {
    Markers(level, t) + [t]
  }

  /** The markers emitted before a keyword: one L+ when it goes deeper, one L- per level it goes up. */
  function Markers(level: nat, t: Tag): seq<Tag>
  {
    var depth := Depth(t);
    if depth > level then [LevelUp] else if depth < level then Downs(level - depth) else []
  }

  /** What the keyword loop has emitted after the keywords `tags`. */
  function Emitted(tags: seq<Tag>): seq<Tag>
  {
    if tags == [] then []
    else
      var init := tags[..|tags| - 1];
      Emitted(init) + Step(LastLevel(init), tags[|tags| - 1])
  }

  /** The list one category gets: the emitted keywords, then one L- per level still open. */
  function Flattened(tags: seq<Tag>): seq<Tag>
  {
    Emitted(tags) + Downs(LastLevel(tags))
  }

  /** The body of the category loop of `flat_tags_to_hierarchy`, for one category. */
  method FlattenKeywords(keywords: seq<Tag>) returns (output: seq<Tag>)
    ensures output == Flattened(keywords)
  {
    var level: nat := 0;
    output := [];
    for i := 0 to |keywords|
      invariant level == LastLevel(keywords[..i])
      invariant output == Emitted(keywords[..i])
    {
      var keywordLevel := CountChar(keywords[i].0, ':');
      ghost var before := output;
      if keywordLevel > level {
        output := output + [LevelUp];
      } else if keywordLevel < level {
        for j := 0 to level - keywordLevel
          invariant output == before + Downs(j)
        {
          output := output + [LevelDown];
        }
      }
      assert keywords[..i + 1][..i] == keywords[..i];
      level := keywordLevel;
      output := output + [keywords[i]];
    }
    assert keywords[..|keywords|] == keywords;
    ghost var before := output;
    for j := 0 to level
      invariant output == before + Downs(j)
    {
      output := output + [LevelDown];
    }
  }

  /** `flat_tags_to_hierarchy`: every category flattened on its own, starting at level 0. */
  method FlatTagsToHierarchy(tags: map<string, seq<Tag>>) returns (result: map<string, seq<Tag>>)
    ensures result.Keys == tags.Keys
    ensures forall category :: category in tags ==> result[category] == Flattened(tags[category])
  {
    result := map[];
    var remaining := tags.Keys;
    while remaining != {}
      invariant remaining <= tags.Keys
      invariant result.Keys == tags.Keys - remaining
      invariant forall category :: category in result ==> result[category] == Flattened(tags[category])
      decreases |remaining|
    {
      var category :| category in remaining;
      var keywords := FlattenKeywords(tags[category]);
      result := result[category := keywords];
      remaining := remaining - {category};
    }
  }

  // ---------------------------------------------------------------------------
  // Properties

  /** No input keyword looks like a marker. */
  predicate NoMarkers(tags: seq<Tag>)
  {
    forall i :: 0 <= i < |tags| ==> IsLeaf(tags[i])
  }

  /** Markers are the only things `Flattened` adds: filtering them out gives back the keywords. */
  lemma {:induction false} EmittedLeaves(tags: seq<Tag>)
    requires NoMarkers(tags)
    ensures Filter(Emitted(tags), IsLeaf) == tags
  {
    if tags != [] {
      var init, last := tags[..|tags| - 1], tags[|tags| - 1];
      EmittedLeaves(init);
      StepLeaf(LastLevel(init), last);
      FilterAppend(Emitted(init), Step(LastLevel(init), last), IsLeaf);
    }
  }

  /** Of what one keyword emits, only the keyword itself is a leaf. */
  lemma StepLeaf(level: nat, t: Tag)
    requires IsLeaf(t)
    ensures Filter(Step(level, t), IsLeaf) == [t]
  {
    var markers := Markers(level, t);
    assert forall i :: 0 <= i < |markers| ==> IsMarker(markers[i]);
    MarkersDropped(markers);
    FilterAppend(markers, [t], IsLeaf);
    FilterSingle(t, IsLeaf);
  }

  lemma {:induction false} MarkersDropped(markers: seq<Tag>)
    requires forall i :: 0 <= i < |markers| ==> IsMarker(markers[i])
    ensures Filter(markers, IsLeaf) == []
  {
    if markers != [] {
      MarkersDropped(markers[..|markers| - 1]);
    }
  }

  lemma FlattenedLeaves(tags: seq<Tag>)
    requires NoMarkers(tags)
    ensures Filter(Flattened(tags), IsLeaf) == tags
  {
    EmittedLeaves(tags);
    MarkersDropped(Downs(LastLevel(tags)));
    FilterAppend(Emitted(tags), Downs(LastLevel(tags)), IsLeaf);
  }

  /** The number of L+ minus the number of L- in a list. */
  function Balance(s: seq<Tag>): int
  {
    if s == [] then 0
    else Balance(s[..|s| - 1]) + (if s[|s| - 1] == LevelUp then 1 else if s[|s| - 1] == LevelDown then -1 else 0)
  }

  lemma {:induction false} BalanceAppend(a: seq<Tag>, b: seq<Tag>)
    ensures Balance(a + b) == Balance(a) + Balance(b)
    decreases |b|
  {
    if b == [] {
      assert a + b == a;
    } else {
      assert (a + b)[..|a + b| - 1] == a + b[..|b| - 1];
      BalanceAppend(a, b[..|b| - 1]);
    }
  }

  lemma {:induction false} BalanceDowns(n: nat)
    ensures Balance(Downs(n)) == 0 - n
  {
    if n > 0 {
      assert Downs(n)[..n - 1] == Downs(n - 1);
      BalanceDowns(n - 1);
    }
  }

  /** Each keyword is at most one level deeper than the one before it, the first at most at depth 1. */
  predicate StepsUpByOne(tags: seq<Tag>)
  {
    forall i :: 0 <= i < |tags| ==> Depth(tags[i]) <= LastLevel(tags[..i]) + 1
  }

  /** After each keyword, the markers so far open exactly as many levels as that keyword's depth. */
  lemma {:induction false} EmittedBalance(tags: seq<Tag>)
    requires NoMarkers(tags) && StepsUpByOne(tags)
    ensures Balance(Emitted(tags)) == LastLevel(tags)
  {
    if tags != [] {
      var init := tags[..|tags| - 1];
      var last := tags[|tags| - 1];
      var level := LastLevel(init);
      assert NoMarkers(init) && StepsUpByOne(init) by {
        forall i | 0 <= i < |init| ensures Depth(init[i]) <= LastLevel(init[..i]) + 1 && IsLeaf(init[i]) {
          assert init[..i] == tags[..i];
        }
      }
      EmittedBalance(init);
      assert tags[..|tags| - 1] == init;
      var markers := Markers(level, last);
      BalanceAppend(Emitted(init), markers + [last]);
      BalanceAppend(markers, [last]);
      assert Balance([last]) == 0 by {
        assert [last][..0] == [];
      }
      assert Depth(last) <= level + 1;
      MarkersBalance(level, last);
    }
  }

  /** The markers before a keyword at most one level deeper move the balance to its depth. */
  lemma MarkersBalance(level: nat, t: Tag)
    requires Depth(t) <= level + 1
    ensures Balance(Markers(level, t)) == Depth(t) - level
  {
    if Depth(t) > level {
      assert Markers(level, t)[..0] == [];
    } else if Depth(t) < level {
      BalanceDowns(level - Depth(t));
    }
  }

  /** The prefix of the output up to and including the i-th keyword opens `Depth(tags[i])` levels. */
  lemma BalanceAtLeaf(tags: seq<Tag>, i: nat)
    requires NoMarkers(tags) && StepsUpByOne(tags) && i < |tags|
    ensures Emitted(tags[..i + 1]) <= Flattened(tags)
    ensures Emitted(tags[..i + 1])[|Emitted(tags[..i + 1])| - 1] == tags[i]
    ensures Balance(Emitted(tags[..i + 1])) == Depth(tags[i])
  {
    var prefix := tags[..i + 1];
    assert NoMarkers(prefix) && StepsUpByOne(prefix) by {
      forall k | 0 <= k < |prefix| ensures Depth(prefix[k]) <= LastLevel(prefix[..k]) + 1 && IsLeaf(prefix[k]) {
        assert prefix[..k] == tags[..k];
      }
    }
    EmittedBalance(prefix);
    EmittedPrefix(tags, i + 1);
    assert prefix[..i] == tags[..i];
  }

  lemma {:induction false} EmittedPrefix(tags: seq<Tag>, n: nat)
    requires n <= |tags|
    ensures Emitted(tags[..n]) <= Emitted(tags)
    decreases |tags| - n
  {
    if n < |tags| {
      EmittedPrefix(tags, n + 1);
      assert tags[..n + 1][..n] == tags[..n];
    } else {
      assert tags[..n] == tags;
    }
  }

  /** With the step-up condition, every level opened is closed: as many L+ as L-. */
  lemma FlattenedBalanced(tags: seq<Tag>)
    requires NoMarkers(tags) && StepsUpByOne(tags)
    ensures Balance(Flattened(tags)) == 0
  {
    EmittedBalance(tags);
    BalanceAppend(Emitted(tags), Downs(LastLevel(tags)));
    BalanceDowns(LastLevel(tags));
  }

  /** Flat keywords get no markers at all. */
  lemma {:induction false} FlatStaysFlat(tags: seq<Tag>)
    requires forall i :: 0 <= i < |tags| ==> Depth(tags[i]) == 0
    ensures Flattened(tags) == tags
  {
    if tags != [] {
      var init := tags[..|tags| - 1];
      FlatStaysFlat(init);
      assert Emitted(init) == init;
      assert tags == init + [tags[|tags| - 1]];
    }
  }

  /** A descent by k levels emits exactly k L- right before the keyword. */
  lemma DescentCloses(tags: seq<Tag>, i: nat)
    requires 0 < i < |tags| && Depth(tags[i]) < Depth(tags[i - 1])
    ensures Emitted(tags[..i + 1])
         == Emitted(tags[..i]) + Downs(Depth(tags[i - 1]) - Depth(tags[i])) + [tags[i]]
  {
    assert tags[..i + 1][..i] == tags[..i];
    assert tags[..i][i - 1] == tags[i - 1];
  }

  /** The example of the documentation: (foo, foo:bar, foo:bar:baz). */
  lemma DocumentationExample(a: string, b: string, c: string, n: int, m: int, k: int)
    requires a == "foo" && b == "foo:bar" && c == "foo:bar:baz"
    ensures Flattened([(a, n), (b, m), (c, k)])
         == [(a, n), LevelUp, (b, m), LevelUp, (c, k), LevelDown, LevelDown]
  {
    var tags := [(a, n), (b, m), (c, k)];
    var bar, baz := "bar", "baz";
    assert b == a + [':'] + bar && c == b + [':'] + baz;
    NestedDepths(a, bar, baz);
    assert Depth((a, n)) == 0 && Depth((b, m)) == 1 && Depth((c, k)) == 2;
    assert tags[..2][..1] == tags[..1] && tags[..3][..2] == tags[..2] && tags[..1][..0] == [];
    assert Emitted(tags[..1]) == [(a, n)];
    assert Emitted(tags[..2]) == [(a, n), LevelUp, (b, m)];
    assert tags[..3] == tags;
    assert Downs(2) == [LevelDown, LevelDown];
  }

  /** Joining colon-free words with `:` nests one level per colon. */
  lemma NestedDepths(a: string, x: string, y: string)
    requires ':' !in a && ':' !in x && ':' !in y
    ensures CountChar(a, ':') == 0
    ensures CountChar(a + [':'] + x, ':') == 1
    ensures CountChar(a + [':'] + x + [':'] + y, ':') == 2
  {
    CountCharAbsent(a, ':');
    CountCharAbsent(x, ':');
    CountCharAbsent(y, ':');
    CountCharJoin(a, x, ':');
    CountCharJoin(a + [':'] + x, y, ':');
  }
}
