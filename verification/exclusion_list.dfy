/** The update of a query's `post__not_in` list: PHP's
    `array_unique(array_merge($list, [$id]))`, modelled on sequences (array
    keys are not modelled). */
module ExclusionList {

  predicate NoDuplicates(s: seq<int>)
  {
    forall i, j :: 0 <= i < j < |s| ==> s[i] != s[j]
  }

  /** Position of the first occurrence of `x` in `s`. */
  function FirstIndex(s: seq<int>, x: int): (i: nat)
    requires x in s
    ensures i < |s| && s[i] == x && x !in s[..i]
  {
    if s[0] == x then 0
    else
      var i' := FirstIndex(s[1..], x);
      assert s[..1 + i'] == [s[0]] + s[1..][..i'];
      1 + i'
  }

  /** Extending a sequence does not move the first occurrence of a value
      already present. */
  lemma FirstIndexOfPrefix(p: seq<int>, s: seq<int>)
    requires p <= s
    ensures forall x :: x in p ==> x in s && FirstIndex(s, x) == FirstIndex(p, x)
  {
    forall x | x in p
      ensures x in s && FirstIndex(s, x) == FirstIndex(p, x)
    {
      var a, b := FirstIndex(s, x), FirstIndex(p, x);
      assert s[b] == x;
    }
  }

  /** array_unique: the first occurrence of every value. `UniqueOrder`
      adds that they come in the order of first occurrence; together these
      determine the result. */
  function Unique(s: seq<int>): (r: seq<int>)
    ensures NoDuplicates(r)
    ensures forall x :: x in r <==> x in s
    decreases |s|
  {
    if |s| == 0 then []
    else
      var d := Unique(s[..|s| - 1]);
      if s[|s| - 1] in d then d else d + [s[|s| - 1]]
  }

  /** The values `array_unique` keeps come in the order of their first
      occurrence in the input. */
  lemma {:induction false} UniqueOrder(s: seq<int>)
    ensures forall i, j :: 0 <= i < j < |Unique(s)| ==> FirstIndex(s, Unique(s)[i]) < FirstIndex(s, Unique(s)[j])
    decreases |s|
  {
    if |s| > 0 {
      var p := s[..|s| - 1];
      UniqueOrder(p);
      FirstIndexOfPrefix(p, s);
      var d := Unique(p);
      if s[|s| - 1] !in d {
        assert FirstIndex(s, s[|s| - 1]) == |s| - 1 by {
          assert s[|s| - 1] !in p;
        }
        var r := d + [s[|s| - 1]];
        assert forall i :: 0 <= i < |d| ==> r[i] == d[i];
      }
    }
  }

  /** Deduplication leaves a duplicate-free sequence as it is. */
  lemma {:induction false} UniqueOfDistinct(s: seq<int>)
    requires NoDuplicates(s)
    ensures Unique(s) == s
    decreases |s|
  {
    if |s| > 0 {
      var p := s[..|s| - 1];
      assert NoDuplicates(p);
      UniqueOfDistinct(p);
      assert s[|s| - 1] !in p;
      assert p + [s[|s| - 1]] == s;
    }
  }

  /** Dedup by a single pass with a set of values already seen, as PHP's
      array_unique does. */
  method ArrayUnique(s: seq<int>) returns (r: seq<int>)
    ensures r == Unique(s)
  {
    r := [];
    var seen: set<int> := {};
    var i := 0;
    while i < |s|
      invariant 0 <= i <= |s|
      invariant r == Unique(s[..i])
      invariant forall x :: x in seen <==> x in r
    {
      ghost var next := s[..i + 1];
      assert next[..|next| - 1] == s[..i] && next[|next| - 1] == s[i];
      if s[i] !in seen {
        r := r + [s[i]];
        seen := seen + {s[i]};
      }
      i := i + 1;
    }
    assert s[..i] == s;
  }

  /** The new `post__not_in` list once the offline page `id` is to be excluded:
      an empty list becomes `[id]`, any other list is merged with `[id]` and
      deduplicated. */
  function ExcludeId(list: seq<int>, id: int): (r: seq<int>)
    ensures |list| == 0 ==> r == [id]
    ensures id in r && NoDuplicates(r)
    ensures forall x :: x in r <==> x in list || x == id
  {
    if |list| == 0 then [id] else Unique(list + [id])
  }

  /** The new list is the old one deduplicated, with the id appended only
      when it was absent. */
  lemma ExcludeIdIsUnique(list: seq<int>, id: int)
    ensures ExcludeId(list, id) == Unique(list) + (if id in list then [] else [id])
  {
    if |list| > 0 {
      assert (list + [id])[..|list|] == list;
    }
  }

  /** Excluding the same id twice gives the list of excluding it once. */
  lemma ExcludeIdIdempotent(list: seq<int>, id: int)
    ensures ExcludeId(ExcludeId(list, id), id) == ExcludeId(list, id)
  {
    var once := ExcludeId(list, id);
    assert id in once && NoDuplicates(once);
    UniqueOfDistinct(once);
    ExcludeIdIsUnique(once, id);
  }
}
