/** An insertion-ordered Python `dict` with string keys, as a list of entries
    whose keys are distinct. Iterating the dict visits the entries in order. */
module Dicts {
  import opened Wrappers

  predicate DistinctKeys<V>(d: seq<(string, V)>) {
    forall i, j :: 0 <= i < j < |d| ==> d[i].0 != d[j].0
  }

  type Dict<V> = d: seq<(string, V)> | DistinctKeys(d) witness []

  /** The keys in iteration order: `list(d)`. */
  function Keys<V>(d: seq<(string, V)>): seq<string> {
    seq(|d|, i requires 0 <= i < |d| => d[i].0)
  }

  /** `d.get(k)`: the value of the first entry with key `k`. */
  function Lookup<V>(d: seq<(string, V)>, k: string): (r: Option<V>)
    ensures r.None? <==> k !in Keys(d)
  {
    if d == [] then None
    else
      assert Keys(d) == [d[0].0] + Keys(d[1..]);
      if d[0].0 == k then Some(d[0].1) else Lookup(d[1..], k)
  }

  /** In a dict, the entry found for `d[i].0` is `d[i]`. */
  lemma {:induction false} LookupEntry<V>(d: Dict<V>, i: nat)
    requires i < |d|
    ensures Lookup(d, d[i].0) == Some(d[i].1)
  {
    if i > 0 {
      var t: Dict<V> := d[1..];
      LookupEntry(t, i - 1);
    }
  }

  /** Looking up in `a + b` consults `b` only for keys `a` lacks. */
  lemma {:induction false} LookupAppend<V>(a: seq<(string, V)>, b: seq<(string, V)>, k: string)
    ensures Lookup(a + b, k) == if k in Keys(a) then Lookup(a, k) else Lookup(b, k)
  {
    if a != [] {
      var c := a + b;
      assert c[0] == a[0] && c[1..] == a[1..] + b;
      assert Keys(a) == [a[0].0] + Keys(a[1..]);
      if a[0].0 == k {
        assert Lookup(c, k) == Some(a[0].1);
        assert k in Keys(a);
      } else {
        LookupAppend(a[1..], b, k);
        assert Lookup(c, k) == Lookup(a[1..] + b, k);
        assert Lookup(a, k) == Lookup(a[1..], k);
        assert k in Keys(a) <==> k in Keys(a[1..]);
      }
    } else {
      assert a + b == b;
    }
  }

  /** The entries of `base`, each with the value `over` gives its key, if any. */
  function Overlay<V>(base: seq<(string, V)>, over: seq<(string, V)>): (r: seq<(string, V)>)
    ensures Keys(r) == Keys(base)
  {
    if base == [] then []
    else
      var k := base[0].0;
      var v := match Lookup(over, k) case Some(w) => w case None => base[0].1;
      assert Keys(base) == [k] + Keys(base[1..]);
      var rest := Overlay(base[1..], over);
      assert Keys([(k, v)] + rest) == [k] + Keys(rest);
      [(k, v)] + rest
  }

  /** The entries of `over` whose keys `base` lacks, in order. */
  function OnlyNew<V>(over: seq<(string, V)>, base: seq<(string, V)>): (r: seq<(string, V)>)
    ensures forall k :: k in Keys(r) <==> k in Keys(over) && k !in Keys(base)
  {
    if over == [] then []
    else
      var rest := OnlyNew(over[1..], base);
      assert Keys(over) == [over[0].0] + Keys(over[1..]);
      if over[0].0 in Keys(base) then rest
      else
        assert Keys([over[0]] + rest) == [over[0].0] + Keys(rest);
        [over[0]] + rest
  }

  lemma {:induction false} OnlyNewDistinct<V>(over: Dict<V>, base: seq<(string, V)>)
    ensures DistinctKeys(OnlyNew(over, base))
  {
    if over != [] {
      var t: Dict<V> := over[1..];
      OnlyNewDistinct(t, base);
      if over[0].0 !in Keys(base) {
        var rest := OnlyNew(t, base);
        assert over[0].0 !in Keys(t) by {
          forall i | 0 <= i < |t| ensures t[i].0 != over[0].0 {
            assert t[i] == over[i + 1];
          }
        }
        assert over[0].0 !in Keys(rest);
        DistinctAppend([over[0]], rest);
      }
    }
  }

  /** Two dicts with no key in common concatenate to a dict. */
  lemma DistinctAppend<V>(a: seq<(string, V)>, b: seq<(string, V)>)
    requires DistinctKeys(a) && DistinctKeys(b)
    requires forall k :: k in Keys(a) ==> k !in Keys(b)
    ensures DistinctKeys(a + b)
  {
    forall i, j | 0 <= i < j < |a + b| ensures (a + b)[i].0 != (a + b)[j].0 {
      if j < |a| {
        assert (a + b)[i] == a[i] && (a + b)[j] == a[j];
      } else if i < |a| {
        assert (a + b)[i] == a[i] && (a + b)[j] == b[j - |a|];
        assert Keys(a)[i] == a[i].0 && Keys(b)[j - |a|] == b[j - |a|].0;
        assert a[i].0 in Keys(a) && b[j - |a|].0 in Keys(b);
      } else {
        assert (a + b)[i] == b[i - |a|] && (a + b)[j] == b[j - |a|];
      }
    }
  }

  lemma KeysDistinct<V, W>(d: seq<(string, V)>, e: seq<(string, W)>)
    requires DistinctKeys(e) && Keys(d) == Keys(e)
    ensures DistinctKeys(d)
  {
    forall i, j | 0 <= i < j < |d| ensures d[i].0 != d[j].0 {
      assert Keys(d)[i] == d[i].0 && Keys(d)[j] == d[j].0;
      assert Keys(e)[i] == e[i].0 && Keys(e)[j] == e[j].0;
    }
  }

  /** `{**base, **over}`: the keys of `base` in their order, then the new keys
      of `over` in theirs; a key in both takes its value from `over`. */
  function Merge<V>(base: Dict<V>, over: Dict<V>): (r: Dict<V>)
    ensures forall k :: Lookup(r, k) == if Lookup(over, k).Some? then Lookup(over, k) else Lookup(base, k)
  {
    var a := Overlay(base, over);
    var b := OnlyNew(over, base);
    OnlyNewDistinct(over, base);
    KeysDistinct(a, base);
    DistinctAppend(a, b);
    forall k ensures Lookup(a + b, k) == if Lookup(over, k).Some? then Lookup(over, k) else Lookup(base, k) {
      LookupAppend(a, b, k);
      OverlayLookup(base, over, k);
    }
    a + b
  }

  lemma {:induction false} OverlayLookup<V>(base: seq<(string, V)>, over: seq<(string, V)>, k: string)
    ensures k in Keys(base) ==>
      Lookup(Overlay(base, over), k) == if Lookup(over, k).Some? then Lookup(over, k) else Lookup(base, k)
    ensures k !in Keys(base) ==> Lookup(OnlyNew(over, base), k) == Lookup(over, k)
  {
    if base != [] {
      assert Keys(base) == [base[0].0] + Keys(base[1..]);
      OverlayLookup(base[1..], over, k);
    }
    if k !in Keys(base) {
      OnlyNewLookup(over, base, k);
    }
  }

  lemma {:induction false} OnlyNewLookup<V>(over: seq<(string, V)>, base: seq<(string, V)>, k: string)
    requires k !in Keys(base)
    ensures Lookup(OnlyNew(over, base), k) == Lookup(over, k)
  {
    if over != [] {
      OnlyNewLookup(over[1..], base, k);
    }
  }
}
