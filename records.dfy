/** The loosely typed records the table works on. A JavaScript object is an
    insertion-ordered list of (key, value) pairs with distinct keys; the
    object operations the table uses are reading and writing a property,
    lodash `_.pick`, `Object.assign` and the key list of a `Set`. */
module Records {
  import opened Wrappers
  import opened Numbers

  /** A property value as the table meets it. `Nested` is an object or array,
      of which only `Object.values` is ever used. */
  datatype Value =
    | Str(s: string)
    | Num(n: Decimal)
    | Bool(b: bool)
    | Null
    | Undefined
    | Nested(items: seq<Value>)

  type Record = seq<(string, Value)>

  /** `Object.keys(r)` */
  function Keys(r: Record): (ks: seq<string>)
    ensures |ks| == |r|
    ensures forall i :: 0 <= i < |r| ==> ks[i] == r[i].0
  {
    seq(|r|, i requires 0 <= i < |r| => r[i].0)
  }

  predicate Distinct(xs: seq<string>)
  {
    forall i, j :: 0 <= i < j < |xs| ==> xs[i] != xs[j]
  }

  /** A JavaScript object never holds the same key twice. */
  predicate WellFormed(r: Record)
  {
    Distinct(Keys(r))
  }

  /** `r[k]`: the value under k, `undefined` when k is absent. */
  function Get(r: Record, k: string): (v: Value)
    ensures k !in Keys(r) ==> v == Undefined
  {
    if r == [] then Undefined else if r[0].0 == k then r[0].1 else Get(r[1..], k)
  }

  /** `r[k] = v`: overwrites in place when k is present, appends otherwise. */
  function Set(r: Record, k: string, v: Value): (r': Record)
    ensures Keys(r') == if k in Keys(r) then Keys(r) else Keys(r) + [k]
  {
    if r == [] then [(k, v)]
    else if r[0].0 == k then [(k, v)] + r[1..]
    else
      var rest := Set(r[1..], k, v);
      assert Keys(r) == [r[0].0] + Keys(r[1..]);
      assert Keys([r[0]] + rest) == [r[0].0] + Keys(rest);
      [r[0]] + rest
  }

  /** The written key reads back the written value; no other key changes. */
  lemma {:induction false} SetGet(r: Record, k: string, v: Value, k': string)
    ensures Get(Set(r, k, v), k') == if k' == k then v else Get(r, k')
  {
    if r != [] && r[0].0 != k {
      SetGet(r[1..], k, v, k');
      assert Set(r, k, v)[1..] == Set(r[1..], k, v);
    }
  }

  lemma SetWellFormed(r: Record, k: string, v: Value)
    requires WellFormed(r)
    ensures WellFormed(Set(r, k, v))
  {
    var ks := Keys(r);
    if k !in ks {
      assert forall i :: 0 <= i < |ks| ==> ks[i] != k by {
        assert forall i :: 0 <= i < |ks| ==> ks[i] in ks;
      }
    }
  }

  lemma GetFirst(r: Record, k: string)
    requires WellFormed(r)
    requires 0 < |r| && r[0].0 == k
    ensures Get(r, k) == r[0].1
  {
  }

  /** Reading from an object extended at the end. */
  lemma {:induction false} GetSnoc(r: Record, x: string, v: Value, k: string)
    ensures Get(r + [(x, v)], k) ==
      if k in Keys(r) then Get(r, k) else if k == x then v else Undefined
  {
    if r != [] {
      assert (r + [(x, v)])[1..] == r[1..] + [(x, v)];
      assert Keys(r) == [r[0].0] + Keys(r[1..]);
      GetSnoc(r[1..], x, v, k);
    } else {
      assert [(x, v)][1..] == [];
    }
  }

  lemma KeysSnoc(r: Record, x: string, v: Value)
    ensures Keys(r + [(x, v)]) == Keys(r) + [x]
  {
  }

  /** Two well-formed objects with the same keys in the same order and the
      same value under every key are the same object. */
  lemma {:induction false} RecordExtensionality(a: Record, b: Record)
    requires WellFormed(a) && WellFormed(b)
    requires Keys(a) == Keys(b)
    requires forall k :: Get(a, k) == Get(b, k)
    ensures a == b
  {
    forall i | 0 <= i < |a| ensures a[i] == b[i] {
      GetAt(a, i);
      GetAt(b, i);
      assert a[i].0 == Keys(a)[i] == Keys(b)[i] == b[i].0;
    }
  }

  /** In a well-formed object, the value under the i-th key is the i-th value. */
  lemma {:induction false} GetAt(r: Record, i: nat)
    requires WellFormed(r)
    requires i < |r|
    ensures Get(r, r[i].0) == r[i].1
  {
    if i > 0 {
      assert r[0].0 != r[i].0 by {
        assert Keys(r)[0] != Keys(r)[i];
      }
      assert Keys(r[1..]) == Keys(r)[1..];
      assert r[1..][i - 1] == r[i];
      GetAt(r[1..], i - 1);
    }
  }

  /** The keys of a `Set` built from xs, in first-insertion order (see
      DedupPrefix). */
  function Dedup(xs: seq<string>): (d: seq<string>)
    ensures Distinct(d)
    ensures forall x :: x in d <==> x in xs
    ensures |d| <= |xs|
  {
    if xs == [] then []
    else
      var init := Dedup(xs[..|xs| - 1]);
      var last := xs[|xs| - 1];
      assert forall x :: x in xs <==> x in xs[..|xs| - 1] || x == last by {
        assert xs == xs[..|xs| - 1] + [last];
      }
      if last in init then init else init + [last]
  }

  /** First-insertion order: the key list of any prefix of xs is a prefix of
      the key list of xs, so a value seen earlier is listed earlier. */
  lemma {:induction false} DedupPrefix(xs: seq<string>, k: nat)
    requires k <= |xs|
    ensures Dedup(xs[..k]) <= Dedup(xs)
    decreases |xs|
  {
    if k == |xs| {
      assert xs[..k] == xs;
    } else {
      var init := xs[..|xs| - 1];
      assert xs[..k] == init[..k];
      DedupPrefix(init, k);
      assert xs == init + [xs[|xs| - 1]];
      DedupSnoc(init, xs[|xs| - 1]);
    }
  }

  /** A list that already has no repetition is its own `Set` key list. */
  lemma {:induction false} DedupDistinct(xs: seq<string>)
    requires Distinct(xs)
    ensures Dedup(xs) == xs
  {
    if xs != [] {
      var init := xs[..|xs| - 1];
      DedupDistinct(init);
      assert xs[|xs| - 1] !in init by {
        assert forall i :: 0 <= i < |init| ==> init[i] == xs[i];
      }
      assert init + [xs[|xs| - 1]] == xs;
    }
  }

  lemma DedupSnoc(xs: seq<string>, x: string)
    ensures Dedup(xs + [x]) == if x in Dedup(xs) then Dedup(xs) else Dedup(xs) + [x]
  {
    assert (xs + [x])[..|xs|] == xs;
  }

  /** The paths of ps that name a key of ks, in the order of ps. */
  function Present(ps: seq<string>, ks: seq<string>): (r: seq<string>)
    ensures forall x :: x in r <==> x in ps && x in ks
  {
    if ps == [] then []
    else
      var init := ps[..|ps| - 1];
      var last := ps[|ps| - 1];
      assert ps == init + [last];
      Present(init, ks) + (if last in ks then [last] else [])
  }

  /** lodash `_.pick(r, ps)`: a fresh object that receives, path by path, each
      path that r has. */
  function Pick(r: Record, ps: seq<string>): (p: Record)
    ensures Keys(p) == Dedup(Present(ps, Keys(r)))
  {
    if ps == [] then []
    else
      var init := ps[..|ps| - 1];
      var last := ps[|ps| - 1];
      var acc := Pick(r, init);
      assert ps == init + [last];
      PresentSnoc(init, last, Keys(r));
      if last in Keys(r) then
        DedupSnoc(Present(init, Keys(r)), last);
        Set(acc, last, Get(r, last))
      else
        assert Present(init, Keys(r)) + [] == Present(init, Keys(r));
        acc
  }

  lemma PresentSnoc(ps: seq<string>, x: string, ks: seq<string>)
    ensures Present(ps + [x], ks) == Present(ps, ks) + (if x in ks then [x] else [])
  {
    assert (ps + [x])[..|ps|] == ps;
  }

  lemma PickWellFormed(r: Record, ps: seq<string>)
    ensures WellFormed(Pick(r, ps))
  {
  }

  /** A picked object holds exactly the requested paths that the source has,
      with the source's values. */
  lemma {:induction false} PickGet(r: Record, ps: seq<string>, k: string)
    ensures Get(Pick(r, ps), k) == if k in ps && k in Keys(r) then Get(r, k) else Undefined
  {
    if ps != [] {
      var init := ps[..|ps| - 1];
      var last := ps[|ps| - 1];
      assert ps == init + [last];
      PickGet(r, init, k);
      if last in Keys(r) {
        SetGet(Pick(r, init), last, Get(r, last), k);
      }
    }
  }

  /** `Object.assign(t, s)`: every property of s, in order, written into t;
      an `undefined` source leaves t as it is. */
  function Assign(t: Record, s: Option<Record>): (r: Record)
    ensures WellFormed(t) ==> WellFormed(r)
  {
    match s
    case None => t
    case Some(src) => AssignAll(t, src)
  }

  function AssignAll(t: Record, src: Record): (r: Record)
    ensures WellFormed(t) ==> WellFormed(r)
  {
    if src == [] then t
    else
      var last := src[|src| - 1];
      var acc := AssignAll(t, src[..|src| - 1]);
      if WellFormed(t) then SetWellFormed(acc, last.0, last.1); Set(acc, last.0, last.1)
      else Set(acc, last.0, last.1)
  }

  /** After `Object.assign(t, s)` the target keeps its own keys in place and
      gains the new keys of s after them, in the order of s. */
  lemma {:induction false} AssignAllKeys(t: Record, src: Record)
    requires WellFormed(t)
    ensures Keys(AssignAll(t, src)) == Dedup(Keys(t) + Keys(src))
  {
    if src == [] {
      assert Keys(t) + Keys(src) == Keys(t);
      DedupDistinct(Keys(t));
    } else {
      var init := src[..|src| - 1];
      var last := src[|src| - 1];
      assert src == init + [(last.0, last.1)];
      AssignAllKeys(t, init);
      var acc := AssignAll(t, init);
      assert AssignAll(t, src) == Set(acc, last.0, last.1);
      KeysSnoc(init, last.0, last.1);
      assert Keys(t) + Keys(src) == (Keys(t) + Keys(init)) + [last.0];
      SetKeysDedup(acc, Keys(t) + Keys(init), last.0, last.1);
    }
  }

  /** Writing a key into a record whose keys are the distinct keys of a list
      gives the distinct keys of the list extended by that key. */
  lemma SetKeysDedup(acc: Record, before: seq<string>, x: string, v: Value)
    requires Keys(acc) == Dedup(before)
    ensures Keys(Set(acc, x, v)) == Dedup(before + [x])
  {
    DedupSnoc(before, x);
  }

  /** The source's values win; keys the source lacks keep the target's value. */
  lemma {:induction false} AssignAllGet(t: Record, src: Record, k: string)
    requires WellFormed(src)
    ensures Get(AssignAll(t, src), k) == if k in Keys(src) then Get(src, k) else Get(t, k)
  {
    if src != [] {
      var init := src[..|src| - 1];
      var last := src[|src| - 1];
      assert src == init + [last];
      assert WellFormed(init) by {
        assert forall i :: 0 <= i < |init| ==> Keys(init)[i] == Keys(src)[i];
      }
      assert last.0 !in Keys(init) by {
        assert forall i :: 0 <= i < |init| ==> Keys(init)[i] == Keys(src)[i];
      }
      AssignAllGet(t, init, k);
      SetGet(AssignAll(t, init), last.0, last.1, k);
      GetSnoc(init, last.0, last.1, k);
      KeysSnoc(init, last.0, last.1);
    }
  }
}
