/** The `String.prototype` operations the story-book preview relies on:
    `indexOf`, `includes`, `split`, `localeCompare`, and `Array.prototype.join`
    over strings. Strings are sequences of characters. */
module JsString {
  import opened Wrappers

  /** `sub` occurs in `s` starting at index `i`. */
  predicate OccursAt(s: string, sub: string, i: nat) {
    i + |sub| <= |s| && s[i..i + |sub|] == sub
  }

  /** The index of the first occurrence of `sub` in `s` at or after `from`. */
  function IndexOfFrom(s: string, sub: string, from: nat): (r: Option<nat>)
    requires from <= |s|
    decreases |s| - from
    ensures r.Some? ==> from <= r.value && OccursAt(s, sub, r.value)
    ensures r.Some? ==> forall j: nat :: from <= j < r.value ==> !OccursAt(s, sub, j)
    ensures r.None? ==> forall j: nat :: from <= j ==> !OccursAt(s, sub, j)
  {
    if OccursAt(s, sub, from) then Some(from)
    else if from == |s| then None
    else IndexOfFrom(s, sub, from + 1)
  }

  /** `s.indexOf(sub)`, with `None` for JavaScript's `-1`. */
  function IndexOf(s: string, sub: string): (r: Option<nat>)
    ensures r.Some? ==> OccursAt(s, sub, r.value)
    ensures r.Some? ==> forall j: nat :: j < r.value ==> !OccursAt(s, sub, j)
    ensures r.None? ==> forall j: nat :: !OccursAt(s, sub, j)
  {
    IndexOfFrom(s, sub, 0)
  }

  /** `s.includes(sub)`: true exactly when `sub` occurs somewhere in `s`. */
  predicate Includes(s: string, sub: string)
    ensures Includes(s, sub) <==> exists i: nat :: OccursAt(s, sub, i)
  {
    IndexOf(s, sub).Some?
  }

  /** `s` begins with `prefix`. */
  predicate StartsWith(s: string, prefix: string) {
    |prefix| <= |s| && s[..|prefix|] == prefix
  }

  /** A concatenation starts with its first part. */
  lemma StartsWithConcat(a: string, b: string)
    ensures StartsWith(a + b, a)
  {
    assert (a + b)[..|a|] == a;
  }

  /** The middle part of `a + w + b` occurs right after `a`. */
  lemma OccursInMiddle(a: string, w: string, b: string)
    ensures OccursAt(a + w + b, w, |a|)
  {
    assert (a + w + b)[|a|..|a| + |w|] == w;
  }

  /** A text assembled as `head + m1 + m2 + part + tail` starts with `head`
      and holds `part` right after `head + m1 + m2`. */
  lemma TemplateParts(head: string, m1: string, m2: string, part: string, tail: string)
    ensures StartsWith(head + m1 + m2 + part + tail, head)
    ensures OccursAt(head + m1 + m2 + part + tail, part, |head + m1 + m2|)
  {
    var s := head + m1 + m2 + part + tail;
    assert s == head + (m1 + m2 + part + tail);
    StartsWithConcat(head, m1 + m2 + part + tail);
    OccursInMiddle(head + m1 + m2, part, tail);
  }

  /** The first occurrence is the only one with no earlier occurrence. */
  lemma IndexOfUnique(s: string, sub: string, i: nat)
    requires OccursAt(s, sub, i)
    requires forall j: nat :: j < i ==> !OccursAt(s, sub, j)
    ensures IndexOf(s, sub) == Some(i)
  {
  }

  /** An occurrence inside a prefix of `s` is an occurrence in `s`. */
  lemma OccursInPrefix(s: string, sub: string, n: nat, j: nat)
    requires n <= |s|
    ensures OccursAt(s[..n], sub, j) <==> j + |sub| <= n && OccursAt(s, sub, j)
  {
    if j + |sub| <= n {
      assert s[..n][j..j + |sub|] == s[j..j + |sub|];
    }
  }

  /** A prefix of a string that lacks `sub` lacks `sub` too. */
  lemma PrefixExcludes(s: string, sub: string, n: nat)
    requires n <= |s|
    requires !Includes(s, sub)
    ensures !Includes(s[..n], sub)
  {
    forall j: nat ensures !OccursAt(s[..n], sub, j) {
      OccursInPrefix(s, sub, n, j);
    }
  }

  /** Occurrences in `a + b` that lie wholly in `a` or wholly in `b`. */
  lemma OccursInConcat(a: string, b: string, sub: string, i: nat)
    ensures i + |sub| <= |a| ==> (OccursAt(a + b, sub, i) <==> OccursAt(a, sub, i))
    ensures |a| <= i ==> (OccursAt(a + b, sub, i) <==> OccursAt(b, sub, i - |a|))
  {
    if i + |sub| <= |a| {
      assert (a + b)[i..i + |sub|] == a[i..i + |sub|];
    }
    if |a| <= i && i + |sub| <= |a| + |b| {
      assert (a + b)[i..i + |sub|] == b[i - |a|..i - |a| + |sub|];
    }
  }

  /** No occurrence of `sub` straddles the seam of `a + b` when the first
      character of `b` appears nowhere in `sub` after its first character. */
  lemma NoStraddle(a: string, b: string, sub: string, i: nat)
    requires |b| > 0
    requires forall k :: 1 <= k < |sub| ==> sub[k] != b[0]
    requires i < |a| < i + |sub|
    ensures !OccursAt(a + b, sub, i)
  {
    var k := |a| - i;
    assert (a + b)[|a|] == b[0] != sub[k];
    if i + |sub| <= |a + b| {
      assert (a + b)[i..i + |sub|][k] == (a + b)[|a|];
    }
  }

  /** Under the no-straddle condition, `a + b` contains `sub` exactly when
      one of its two parts does. */
  lemma IncludesConcat(a: string, b: string, sub: string)
    requires |b| > 0
    requires forall k :: 1 <= k < |sub| ==> sub[k] != b[0]
    ensures Includes(a + b, sub) <==> Includes(a, sub) || Includes(b, sub)
  {
    if Includes(a + b, sub) {
      var i: nat :| OccursAt(a + b, sub, i);
      OccursInConcat(a, b, sub, i);
      if i < |a| < i + |sub| {
        NoStraddle(a, b, sub, i);
      }
      if |a| <= i {
        assert OccursAt(b, sub, i - |a|);
      }
    }
    if Includes(a, sub) {
      var i: nat :| OccursAt(a, sub, i);
      OccursInConcat(a, b, sub, i);
    }
    if Includes(b, sub) {
      var i: nat :| OccursAt(b, sub, i);
      OccursInConcat(a, b, sub, |a| + i);
    }
  }

  /** When `a` lacks `sub` and `b` starts with it (and no occurrence can
      straddle the seam), the first occurrence in `a + b` is at `|a|`. */
  lemma IndexOfAtSeam(a: string, b: string, sub: string)
    requires sub != []
    requires !Includes(a, sub)
    requires StartsWith(b, sub)
    requires forall k :: 1 <= k < |sub| ==> sub[k] != b[0]
    ensures IndexOf(a + b, sub) == Some(|a|)
  {
    OccursInConcat(a, b, sub, |a|);
    assert b[0..|sub|] == sub;
    forall j: nat | j < |a| ensures !OccursAt(a + b, sub, j) {
      OccursInConcat(a, b, sub, j);
      if |a| < j + |sub| {
        NoStraddle(a, b, sub, j);
      }
    }
    IndexOfUnique(a + b, sub, |a|);
  }

  /** A one-character pattern occurs exactly where that character is. */
  lemma OccursAtChar(s: string, c: char, i: nat)
    ensures OccursAt(s, [c], i) <==> i < |s| && s[i] == c
  {
    if i < |s| {
      assert s[i..i + 1] == [s[i]];
    }
  }

  /** A one-character pattern is included exactly when the character is. */
  lemma IncludesChar(s: string, c: char)
    ensures Includes(s, [c]) <==> c in s
  {
    if c in s {
      var i :| 0 <= i < |s| && s[i] == c;
      OccursAtChar(s, c, i);
    }
    forall i: nat ensures OccursAt(s, [c], i) ==> c in s {
      OccursAtChar(s, c, i);
    }
  }

  /** A string lacks any pattern holding a character the string lacks. */
  lemma ExcludesByChar(s: string, sub: string, k: nat)
    requires k < |sub|
    requires sub[k] !in s
    ensures !Includes(s, sub)
  {
    forall i: nat ensures !OccursAt(s, sub, i) {
      if i + |sub| <= |s| {
        assert s[i..i + |sub|][k] == s[i + k];
      }
    }
  }

  /** `s.split(sep)` for a non-empty separator: the pieces between successive
      leftmost occurrences of `sep`. */
  function Split(s: string, sep: string): (parts: seq<string>)
    requires sep != []
    decreases |s|
    ensures |parts| >= 1
  {
    match IndexOf(s, sep)
    case None => [s]
    case Some(i) => [s[..i]] + Split(s[i + |sep|..], sep)
  }

  /** A string is the concatenation of its three parts around `i` and `j`. */
  lemma ThreeParts(s: string, i: nat, j: nat)
    requires i <= j <= |s|
    ensures s == s[..i] + s[i..j] + s[j..]
  {
  }

  /** One step of a split at the first occurrence `i` of the separator. */
  lemma SplitAt(s: string, sep: string, i: nat)
    requires sep != []
    requires IndexOf(s, sep) == Some(i)
    ensures Split(s, sep) == [s[..i]] + Split(s[i + |sep|..], sep)
  {
  }

  /** `parts.join(sep)`. */
  function Join(parts: seq<string>, sep: string): string
    decreases |parts|
  {
    if |parts| == 0 then ""
    else if |parts| == 1 then parts[0]
    else parts[0] + sep + Join(parts[1..], sep)
  }

  /** Joining a first piece onto a non-empty rest puts the separator between. */
  lemma JoinCons(head: string, rest: seq<string>, sep: string)
    requires |rest| >= 1
    ensures Join([head] + rest, sep) == head + sep + Join(rest, sep)
  {
    assert ([head] + rest)[1..] == rest;
  }

  /** `s.split(sep)[0]`: the text before the first occurrence of `sep`, which
      is all of `s` when `sep` does not occur. */
  lemma SplitHead(s: string, sep: string)
    requires sep != []
    ensures StartsWith(s, Split(s, sep)[0])
    ensures !Includes(Split(s, sep)[0], sep)
    ensures Split(s, sep)[0] == s || OccursAt(s, sep, |Split(s, sep)[0]|)
    ensures IndexOf(s, sep).None? ==> Split(s, sep)[0] == s
    ensures IndexOf(s, sep).Some? ==> |Split(s, sep)[0]| == IndexOf(s, sep).value
  {
    match IndexOf(s, sep)
    case None =>
    case Some(i) =>
      assert Split(s, sep)[0] == s[..i];
      forall j: nat ensures !OccursAt(s[..i], sep, j) {
        OccursInPrefix(s, sep, i, j);
      }
  }

  /** No piece of a split contains the separator. */
  lemma {:induction false} SplitPiecesExcludeSeparator(s: string, sep: string)
    requires sep != []
    decreases |s|
    ensures forall k :: 0 <= k < |Split(s, sep)| ==> !Includes(Split(s, sep)[k], sep)
  {
    SplitHead(s, sep);
    match IndexOf(s, sep)
    case None =>
    case Some(i) =>
      SplitPiecesExcludeSeparator(s[i + |sep|..], sep);
  }

  /** Joining the pieces of a split with the same separator gives back the
      original string. */
  lemma {:induction false} JoinSplit(s: string, sep: string)
    requires sep != []
    decreases |s|
    ensures Join(Split(s, sep), sep) == s
  {
    match IndexOf(s, sep)
    case None =>
    case Some(i) =>
      var rest := s[i + |sep|..];
      var tail := Split(rest, sep);
      JoinSplit(rest, sep);
      SplitAt(s, sep, i);
      JoinCons(s[..i], tail, sep);
      assert s[i..i + |sep|] == sep;
      ThreeParts(s, i, i + |sep|);
  }

  /** Splitting a join on a one-character separator gives back the pieces,
      provided there is at least one piece and none contains the separator. */
  lemma {:induction false} SplitJoin(parts: seq<string>, c: char)
    requires |parts| >= 1
    requires forall k :: 0 <= k < |parts| ==> c !in parts[k]
    decreases |parts|
    ensures Split(Join(parts, [c]), [c]) == parts
  {
    var s := Join(parts, [c]);
    if |parts| == 1 {
      forall j: nat ensures !OccursAt(s, [c], j) {
        OccursAtChar(s, c, j);
      }
    } else {
      var head, tail := parts[0], Join(parts[1..], [c]);
      assert s == head + [c] + tail;
      forall j: nat | j < |head| ensures !OccursAt(s, [c], j) {
        OccursAtChar(s, c, j);
        assert s[j] == head[j];
      }
      OccursAtChar(s, c, |head|);
      IndexOfUnique(s, [c], |head|);
      assert s[..|head|] == head;
      assert s[|head| + 1..] == tail;
      SplitJoin(parts[1..], c);
      assert parts == [head] + parts[1..];
    }
  }

  /** `a.localeCompare(b)`, with the host's collation replaced by the
      lexicographic order of code points: -1, 0 or 1, and 0 only on equal
      strings. A host collation also returns 0 on distinct strings that are
      canonically equivalent, which this order rules out. */
  function LocaleCompare(a: string, b: string): (r: int)
    decreases |a|
    ensures -1 <= r <= 1
    ensures r == 0 <==> a == b
  {
    if a == [] && b == [] then 0
    else if a == [] then -1
    else if b == [] then 1
    else if a[0] < b[0] then -1
    else if b[0] < a[0] then 1
    else
      assert a == [a[0]] + a[1..] && b == [b[0]] + b[1..];
      LocaleCompare(a[1..], b[1..])
  }

  /** Swapping the operands negates the comparison. */
  lemma {:induction false} LocaleCompareAntisymmetric(a: string, b: string)
    decreases |a|
    ensures LocaleCompare(a, b) == -LocaleCompare(b, a)
  {
    if a != [] && b != [] && a[0] == b[0] {
      LocaleCompareAntisymmetric(a[1..], b[1..]);
    }
  }

  /** The comparison orders strings transitively. */
  lemma {:induction false} LocaleCompareTransitive(a: string, b: string, c: string)
    requires LocaleCompare(a, b) < 0 && LocaleCompare(b, c) < 0
    decreases |a|
    ensures LocaleCompare(a, c) < 0
  {
    if a != [] && b != [] && c != [] && a[0] == b[0] && b[0] == c[0] {
      LocaleCompareTransitive(a[1..], b[1..], c[1..]);
    }
  }
}
