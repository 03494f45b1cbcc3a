/** The `storySort` option of the story-book preview: a three-way comparator
    that orders stories by their kind, then by the weight of the keywords that
    occur in their ids, then by their ids. */
module StorySort {
  import opened Wrappers
  import opened JsString

  /** One entry the host hands to the comparator, the pair `[id, {kind}]`. */
  datatype Story = Story(id: string, kind: string)

  /** The weight of an id that contains none of the keywords. */
  const UnknownKeyword: int := 3

  /** The keyword table, in insertion (and so iteration) order. */
  const Keywords: seq<(string, int)> := [
    ("welcome", 0),
    ("default", 1),
    ("usage", 2),
    ("playground", 4),
    ("development", 5),
    ("deprecated", 6),
    ("unstable", 7)
  ]

  /** Weights grow strictly along the table. */
  lemma KeywordWeightsIncrease()
    ensures forall i, j :: 0 <= i < j < |Keywords| ==> Keywords[i].1 < Keywords[j].1
  {
  }

  /** The weight of the last keyword among the first `n` of the table, in
      table order, that `id` contains, if any: what the keyword loop has
      recorded for `id` after `n` rounds. */
  function MatchedWeight(id: string, n: nat): Option<int>
    requires n <= |Keywords|
  {
    if n == 0 then None
    else if Includes(id, Keywords[n - 1].0) then Some(Keywords[n - 1].1)
    else MatchedWeight(id, n - 1)
  }

  /** `MatchedWeight` finds nothing exactly when none of the first `n`
      keywords occurs in `id`; otherwise it gives the weight of one that
      occurs and after which none of the first `n` occurs. */
  lemma {:induction false} MatchedWeightIsLast(id: string, n: nat)
    requires n <= |Keywords|
    ensures MatchedWeight(id, n).None? <==> forall k :: 0 <= k < n ==> !Includes(id, Keywords[k].0)
    ensures MatchedWeight(id, n).Some? ==>
      exists k :: 0 <= k < n && Includes(id, Keywords[k].0) && Keywords[k].1 == MatchedWeight(id, n).value &&
                  forall j :: k < j < n ==> !Includes(id, Keywords[j].0)
  {
    if n > 0 {
      if Includes(id, Keywords[n - 1].0) {
        var k := n - 1;
        assert Includes(id, Keywords[k].0) && Keywords[k].1 == MatchedWeight(id, n).value;
      } else {
        MatchedWeightIsLast(id, n - 1);
      }
    }
  }

  /** The weight the comparator gives an id: that of the last keyword of the
      table it contains, or `UnknownKeyword` when it contains none. */
  function EffectiveWeight(id: string): int {
    MatchedWeight(id, |Keywords|).GetOr(UnknownKeyword)
  }

  /** Because weights increase along the table, the last matching keyword is
      the greatest valued one: the effective weight is the maximum weight over
      the keywords the id contains, or `UnknownKeyword` when there are none. */
  lemma EffectiveWeightIsGreatestMatch(id: string)
    ensures forall k :: 0 <= k < |Keywords| && Includes(id, Keywords[k].0) ==>
              Keywords[k].1 <= EffectiveWeight(id)
    ensures (EffectiveWeight(id) == UnknownKeyword &&
             forall k :: 0 <= k < |Keywords| ==> !Includes(id, Keywords[k].0)) ||
            (exists k :: 0 <= k < |Keywords| && Includes(id, Keywords[k].0) &&
                         Keywords[k].1 == EffectiveWeight(id))
  {
    KeywordWeightsIncrease();
    MatchedWeightIsLast(id, |Keywords|);
    match MatchedWeight(id, |Keywords|)
    case None =>
    case Some(w) =>
      var k :| 0 <= k < |Keywords| && Includes(id, Keywords[k].0) && Keywords[k].1 == w &&
               forall j :: k < j < |Keywords| ==> !Includes(id, Keywords[j].0);
      forall j | 0 <= j < |Keywords| && Includes(id, Keywords[j].0) ensures Keywords[j].1 <= w {
        assert j <= k;
      }
  }

  /** A match among the first `i` keywords weighs less than keyword `i`,
      which is why the loop's early exit never fires. */
  lemma MatchedWeightBelowNext(id: string, i: nat)
    requires i < |Keywords|
    requires MatchedWeight(id, i).Some?
    ensures MatchedWeight(id, i).value < Keywords[i].1
  {
    KeywordWeightsIncrease();
    MatchedWeightIsLast(id, i);
  }

  /** What the comparator returns, stated through the effective weights. */
  function StoryOrder(a: Story, b: Story): int {
    if a.kind != b.kind then LocaleCompare(a.kind, b.kind)
    else
      var wa, wb := EffectiveWeight(a.id), EffectiveWeight(b.id);
      if wa == wb then LocaleCompare(a.id, b.id) else wa - wb
  }

  /** The comparator itself: it walks the keyword table once, recording in
      `matches` the weight of each keyword an id contains, each hit
      overwriting the previous one. The early exit of the walk never fires. */
  method Compare(storyA: Story, storyB: Story) returns (r: int)
    ensures r == StoryOrder(storyA, storyB)
  {
    if storyA.kind != storyB.kind {
      return LocaleCompare(storyA.kind, storyB.kind);
    }
    var idA, idB := storyA.id, storyB.id;
    var matches: map<string, int> := map[];
    var i := 0;
    while i < |Keywords|
      invariant 0 <= i <= |Keywords|
      invariant forall id :: id in matches ==> id == idA || id == idB
      invariant idA in matches <==> MatchedWeight(idA, i).Some?
      invariant idA in matches ==> matches[idA] == MatchedWeight(idA, i).value
      invariant idB in matches <==> MatchedWeight(idB, i).Some?
      invariant idB in matches ==> matches[idB] == MatchedWeight(idB, i).value
    {
      var (keyword, weight) := Keywords[i];
      if idA in matches {
        MatchedWeightBelowNext(idA, i);
      }
      if idB in matches {
        MatchedWeightBelowNext(idB, i);
      }
      if (idA in matches && matches[idA] > weight) || (idB in matches && matches[idB] > weight) {
        break;
      }
      if Includes(idA, keyword) {
        matches := matches[idA := weight];
      }
      if Includes(idB, keyword) {
        matches := matches[idB := weight];
      }
      i := i + 1;
    }
    assert i == |Keywords|;
    if |matches| > 0 {
      var weightA := if idA in matches then matches[idA] else UnknownKeyword;
      var weightB := if idB in matches then matches[idB] else UnknownKeyword;
      if weightA == weightB {
        return LocaleCompare(idA, idB);
      }
      return weightA - weightB;
    }
    assert idA !in matches && idB !in matches;
    return LocaleCompare(idA, idB);
  }

  /** Reference order: lexicographic on the key (kind, effective weight of
      the id, id), each part compared the way the comparator compares it. */
  predicate SortsBefore(a: Story, b: Story) {
    LocaleCompare(a.kind, b.kind) < 0 ||
    (a.kind == b.kind &&
     (EffectiveWeight(a.id) < EffectiveWeight(b.id) ||
      (EffectiveWeight(a.id) == EffectiveWeight(b.id) && LocaleCompare(a.id, b.id) < 0)))
  }

  /** A negative comparison means exactly that `a` comes first by the key. */
  lemma StoryOrderIsKeyOrder(a: Story, b: Story)
    ensures StoryOrder(a, b) < 0 <==> SortsBefore(a, b)
    ensures StoryOrder(a, b) > 0 <==> SortsBefore(b, a)
  {
    LocaleCompareAntisymmetric(a.kind, b.kind);
    LocaleCompareAntisymmetric(a.id, b.id);
  }

  /** Stories of different kinds are ordered by their kinds alone: replacing
      either id changes nothing, and under the code-point order they never
      compare equal. */
  lemma KindsCompareFirst(a: Story, b: Story, idA: string, idB: string)
    requires a.kind != b.kind
    ensures StoryOrder(a, b) == StoryOrder(Story(idA, a.kind), Story(idB, b.kind))
    ensures StoryOrder(a, b) != 0
  {
  }

  /** Within one kind, a lower effective weight sorts first, whatever the ids. */
  lemma LowerWeightFirst(a: Story, b: Story)
    requires a.kind == b.kind
    requires EffectiveWeight(a.id) < EffectiveWeight(b.id)
    ensures StoryOrder(a, b) < 0
  {
  }

  /** A story compares equal only to itself, under the code-point order. */
  lemma StoryOrderZeroIffEqual(a: Story, b: Story)
    ensures StoryOrder(a, b) == 0 <==> a == b
  {
  }

  /** Swapping the stories negates the comparison. */
  lemma StoryOrderAntisymmetric(a: Story, b: Story)
    ensures StoryOrder(a, b) == -StoryOrder(b, a)
  {
    LocaleCompareAntisymmetric(a.kind, b.kind);
    LocaleCompareAntisymmetric(a.id, b.id);
  }

  /** The comparator orders stories transitively, so together with the two
      lemmas above it is a strict total order usable by any sort, under the
      code-point order `LocaleCompare` stands for. A host collation that
      calls two distinct kinds equal would break this. */
  lemma StoryOrderTransitive(a: Story, b: Story, c: Story)
    requires StoryOrder(a, b) < 0 && StoryOrder(b, c) < 0
    ensures StoryOrder(a, c) < 0
  {
    StoryOrderIsKeyOrder(a, b);
    StoryOrderIsKeyOrder(b, c);
    StoryOrderIsKeyOrder(a, c);
    if LocaleCompare(a.kind, b.kind) < 0 && LocaleCompare(b.kind, c.kind) < 0 {
      LocaleCompareTransitive(a.kind, b.kind, c.kind);
    }
    if a.kind == b.kind == c.kind && LocaleCompare(a.id, b.id) < 0 && LocaleCompare(b.id, c.id) < 0 {
      LocaleCompareTransitive(a.id, b.id, c.id);
    }
  }
}
