/**
 * The count maps of the formula parsers: a `Record<string, number>` created with
 * `Object.create(null)` and filled by `map[k] = (map[k] || 0) + n`. Such an object has no
 * prototype keys and enumerates its (non-numeric) keys in insertion order, so it is modelled
 * as an association list in insertion order. A key stays present even when its count is 0.
 */
module Counts {

  type Counts = seq<(string, nat)>

  /** Object.keys: the keys in insertion order. */
  function Keys(c: Counts): (ks: seq<string>)
    ensures |ks| == |c|
  {
    if |c| == 0 then [] else [c[0].0] + Keys(c[1..])
  }

  lemma {:induction false} KeysIndex(c: Counts, i: nat)
    requires i < |c|
    ensures Keys(c)[i] == c[i].0
  {
    if i > 0 {
      KeysIndex(c[1..], i - 1);
    }
  }

  /** No key occurs twice, as in a JavaScript object. */
  predicate Distinct(c: Counts)
  {
    forall i, j :: 0 <= i < j < |c| ==> Keys(c)[i] != Keys(c)[j]
  }

  /** `map[k] || 0`: the count of k, or 0 when k is absent. */
  function Get(c: Counts, k: string): (v: nat)
    ensures k !in Keys(c) ==> v == 0
  {
    if |c| == 0 then 0 else if c[0].0 == k then c[0].1 else Get(c[1..], k)
  }

  /** `map[k] = (map[k] || 0) + n`: update in place, or append a new key at the end. */
  function Add(c: Counts, k: string, n: nat): (r: Counts)
    ensures Get(r, k) == Get(c, k) + n
    ensures forall k' :: k' != k ==> Get(r, k') == Get(c, k')
  {
    if |c| == 0 then [(k, n)]
    else if c[0].0 == k then [(k, c[0].1 + n)] + c[1..]
    else [c[0]] + Add(c[1..], k, n)
  }

  /** A new key is appended after the existing ones; an existing key keeps its place. */
  lemma {:induction false} AddKeys(c: Counts, k: string, n: nat)
    ensures Keys(Add(c, k, n)) == if k in Keys(c) then Keys(c) else Keys(c) + [k]
  {
    if |c| > 0 {
      assert Keys(c) == [c[0].0] + Keys(c[1..]);
      if c[0].0 != k {
        AddKeys(c[1..], k, n);
        assert Keys(Add(c, k, n)) == [c[0].0] + Keys(Add(c[1..], k, n));
      } else {
        assert Keys(Add(c, k, n)) == [k] + Keys(c[1..]);
      }
    }
  }

  lemma {:induction false} HeadNotInTail(c: Counts)
    requires Distinct(c) && |c| > 0
    ensures c[0].0 !in Keys(c[1..]) && Distinct(c[1..])
  {
    var ks := Keys(c);
    assert ks == [c[0].0] + Keys(c[1..]);
    forall j | 0 <= j < |c| - 1
      ensures Keys(c[1..])[j] != c[0].0
    {
      assert ks[j + 1] == Keys(c[1..])[j];
      assert ks[0] != ks[j + 1];
    }
    forall i, j | 0 <= i < j < |c| - 1
      ensures Keys(c[1..])[i] != Keys(c[1..])[j]
    {
      assert ks[i + 1] != ks[j + 1];
    }
  }

  lemma {:induction false} AddKeepsDistinct(c: Counts, k: string, n: nat)
    requires Distinct(c)
    ensures Distinct(Add(c, k, n))
  {
    AddKeys(c, k, n);
  }

  /**
   * `for (const [el, cnt] of Object.entries(group)) add(top, el, cnt * mult)`: the group's
   * entries, scaled by mult, are added into top in the group's insertion order.
   */
  function Merge(top: Counts, group: Counts, mult: nat): Counts
    decreases |group|
  {
    if |group| == 0 then top
    else Merge(Add(top, group[0].0, group[0].1 * mult), group[1..], mult)
  }

  /** The merged scope holds the keys of both scopes and no others. */
  lemma {:induction false} MergeKeys(top: Counts, group: Counts, mult: nat, k: string)
    ensures k in Keys(Merge(top, group, mult)) <==> k in Keys(top) || k in Keys(group)
    decreases |group|
  {
    if |group| > 0 {
      assert Keys(group) == [group[0].0] + Keys(group[1..]);
      AddKeys(top, group[0].0, group[0].1 * mult);
      MergeKeys(Add(top, group[0].0, group[0].1 * mult), group[1..], mult, k);
    }
  }

  /** Merging adds mult times each count of the group to the enclosing scope's count. */
  lemma {:induction false} MergeGet(top: Counts, group: Counts, mult: nat, k: string)
    requires Distinct(group)
    ensures Get(Merge(top, group, mult), k) == Get(top, k) + Get(group, k) * mult
    decreases |group|
  {
    if |group| == 0 {
      assert Get(group, k) * mult == 0 * mult == 0;
    } else {
      var (key, cnt) := group[0];
      var top' := Add(top, key, cnt * mult);
      HeadNotInTail(group);
      MergeGet(top', group[1..], mult, k);
      var rest := Get(group[1..], k);
      assert Get(Merge(top, group, mult), k) == Get(top', k) + rest * mult;
      if k == key {
        assert rest == 0;
        assert rest * mult == 0 * mult == 0;
        assert Get(group, k) * mult == cnt * mult;
      } else {
        assert Get(group, k) * mult == rest * mult;
      }
    }
  }

  lemma {:induction false} MergeKeepsDistinct(top: Counts, group: Counts, mult: nat)
    requires Distinct(top)
    ensures Distinct(Merge(top, group, mult))
    decreases |group|
  {
    if |group| > 0 {
      AddKeepsDistinct(top, group[0].0, group[0].1 * mult);
      MergeKeepsDistinct(Add(top, group[0].0, group[0].1 * mult), group[1..], mult);
    }
  }
}
