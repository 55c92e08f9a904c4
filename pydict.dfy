/**
 * Python's `dict` with string keys, as the scripts use it: an ordered
 * sequence of key/value pairs. Assigning to a new key appends the pair;
 * assigning to a key already present changes its value where it stands.
 */
module PyDict {
  import opened Wrappers
  import opened Seqs

  type Dict<V> = seq<(string, V)>

  /** `list(d)`: the keys in insertion order. */
  function Keys<V>(d: Dict<V>): (ks: seq<string>)
    ensures |ks| == |d|
    ensures forall i :: 0 <= i < |d| ==> ks[i] == d[i].0
  {
    seq(|d|, i requires 0 <= i < |d| => d[i].0)
  }

  predicate Distinct(ks: seq<string>) {
    forall i, j :: 0 <= i < j < |ks| ==> ks[i] != ks[j]
  }

  /** A dict never holds a key twice. */
  predicate Valid<V>(d: Dict<V>) {
    Distinct(Keys(d))
  }

  /** The position of key `k`, or `|d|` when it is absent. */
  function IndexOf<V>(d: Dict<V>, k: string): (i: nat)
    ensures i <= |d|
    ensures i < |d| ==> d[i].0 == k
    ensures forall j :: 0 <= j < i ==> d[j].0 != k
  {
    if d == [] then 0 else if d[0].0 == k then 0 else 1 + IndexOf(d[1..], k)
  }

  /** The two properties of `IndexOf` determine it. */
  lemma IndexOfUnique<V>(d: Dict<V>, k: string, i: nat)
    requires i <= |d| && (i < |d| ==> d[i].0 == k) && forall j :: 0 <= j < i ==> d[j].0 != k
    ensures IndexOf(d, k) == i
  {
  }

  /** `d.get(k)` */
  function Get<V>(d: Dict<V>, k: string): (r: Option<V>)
    ensures r.Some? <==> k in Keys(d)
    ensures r.Some? ==> (k, r.value) in d
  {
    var i := IndexOf(d, k);
    assert i < |d| ==> Keys(d)[i] == k;
    if i == |d| then None else Some(d[i].1)
  }

  /** In a valid dict the value stored at a position is the one `Get` finds. */
  lemma GetAt<V>(d: Dict<V>, i: nat)
    requires Valid(d) && i < |d|
    ensures Get(d, d[i].0) == Some(d[i].1)
  {
    assert forall j :: 0 <= j < i ==> Keys(d)[j] != Keys(d)[i];
    IndexOfUnique(d, d[i].0, i);
  }

  /** `d[k] = v` */
  function Set<V>(d: Dict<V>, k: string, v: V): (r: Dict<V>)
    ensures k in Keys(d) ==> Keys(r) == Keys(d)
    ensures k !in Keys(d) ==> Keys(r) == Keys(d) + [k]
    ensures Get(r, k) == Some(v)
    ensures forall k' :: k' != k ==> Get(r, k') == Get(d, k')
    ensures Valid(d) ==> Valid(r)
  {
    var i := IndexOf(d, k);
    var r := if i == |d| then d + [(k, v)] else d[i := (k, v)];
    SetFacts(d, k, v, i, r);
    r
  }

  /** The facts `Set` promises, for either of its two cases. */
  lemma SetFacts<V>(d: Dict<V>, k: string, v: V, i: nat, r: Dict<V>)
    requires i == IndexOf(d, k)
    requires r == if i == |d| then d + [(k, v)] else d[i := (k, v)]
    ensures k in Keys(d) ==> Keys(r) == Keys(d)
    ensures k !in Keys(d) ==> Keys(r) == Keys(d) + [k]
    ensures Get(r, k) == Some(v)
    ensures forall k' :: k' != k ==> Get(r, k') == Get(d, k')
    ensures Valid(d) ==> Valid(r)
  {
    if i == |d| {
      AppendFacts(d, k, v);
    } else {
      UpdateFacts(d, k, v, i);
    }
  }

  /** Appending a new key. */
  lemma AppendFacts<V>(d: Dict<V>, k: string, v: V)
    requires IndexOf(d, k) == |d|
    ensures k !in Keys(d) && Keys(d + [(k, v)]) == Keys(d) + [k]
    ensures Get(d + [(k, v)], k) == Some(v)
    ensures forall k' :: k' != k ==> Get(d + [(k, v)], k') == Get(d, k')
    ensures Valid(d) ==> Valid(d + [(k, v)])
  {
    var r := d + [(k, v)];
    assert forall j :: 0 <= j < |d| ==> r[j] == d[j];
    assert k !in Keys(d) by {
      assert forall j :: 0 <= j < |d| ==> Keys(d)[j] != k;
    }
    IndexOfUnique(r, k, |d|);
    forall k' | k' != k
      ensures Get(r, k') == Get(d, k')
    {
      var m := IndexOf(d, k');
      if m < |d| {
        IndexOfUnique(r, k', m);
      } else {
        IndexOfUnique(r, k', |r|);
      }
    }
    assert Keys(r) == Keys(d) + [k] by {
      assert forall j :: 0 <= j < |d| ==> Keys(r)[j] == Keys(d)[j];
    }
    if Valid(d) {
      DistinctSnoc(Keys(d), k);
    }
  }

  /** A new key keeps the keys distinct. */
  lemma DistinctSnoc(ks: seq<string>, k: string)
    requires Distinct(ks) && k !in ks
    ensures Distinct(ks + [k])
  {
    forall i, j | 0 <= i < j < |ks| + 1
      ensures (ks + [k])[i] != (ks + [k])[j]
    {
      if j == |ks| {
        assert (ks + [k])[i] == ks[i];
      } else {
        assert (ks + [k])[i] == ks[i] && (ks + [k])[j] == ks[j];
      }
    }
  }

  /** Updating an existing key in place. */
  lemma UpdateFacts<V>(d: Dict<V>, k: string, v: V, i: nat)
    requires i == IndexOf(d, k) && i < |d|
    ensures k in Keys(d) && Keys(d[i := (k, v)]) == Keys(d)
    ensures Get(d[i := (k, v)], k) == Some(v)
    ensures forall k' :: k' != k ==> Get(d[i := (k, v)], k') == Get(d, k')
  {
    var r := d[i := (k, v)];
    assert Keys(d)[i] == k;
    IndexOfUnique(r, k, i);
    forall k' | k' != k
      ensures Get(r, k') == Get(d, k')
    {
      IndexOfUnique(r, k', IndexOf(d, k'));
    }
    assert Keys(r) == Keys(d);
  }

  /** The assignments `d[k] = v` for every pair of `ps` in turn. */
  function SetAll<V>(d: Dict<V>, ps: seq<(string, V)>): Dict<V> {
    if ps == [] then d
    else Set(SetAll(d, ps[..|ps| - 1]), ps[|ps| - 1].0, ps[|ps| - 1].1)
  }

  /** One more assignment at the end. */
  lemma SetAllSnoc<V>(d: Dict<V>, ps: seq<(string, V)>, k: string, v: V)
    ensures SetAll(d, ps + [(k, v)]) == Set(SetAll(d, ps), k, v)
  {
    assert (ps + [(k, v)])[..|ps|] == ps;
  }

  /** One more assignment, taken from the pairs in place. */
  lemma SetAllStep<V>(d: Dict<V>, ps: seq<(string, V)>, i: nat)
    requires i < |ps|
    ensures SetAll(d, ps[..i + 1]) == Set(SetAll(d, ps[..i]), ps[i].0, ps[i].1)
  {
    assert ps[..i + 1][..i] == ps[..i];
  }

  /** The value the last pair with key `k` carries, if any. */
  function LastValue<V>(ps: seq<(string, V)>, k: string): Option<V> {
    if ps == [] then None
    else if ps[|ps| - 1].0 == k then Some(ps[|ps| - 1].1)
    else LastValue(ps[..|ps| - 1], k)
  }

  /** `LastValue` picks the pair with key `k` that no later pair overrides. */
  lemma {:induction false} LastValueAt<V>(ps: seq<(string, V)>, k: string, v: V)
    ensures LastValue(ps, k) == Some(v) <==>
      exists j :: 0 <= j < |ps| && ps[j] == (k, v) && forall j' :: j < j' < |ps| ==> ps[j'].0 != k
    decreases |ps|
  {
    if ps != [] {
      var ps' := ps[..|ps| - 1];
      if ps[|ps| - 1].0 != k {
        LastValueAt(ps', k, v);
        forall j
          ensures (0 <= j < |ps| && ps[j] == (k, v) && forall j' :: j < j' < |ps| ==> ps[j'].0 != k) <==>
            (0 <= j < |ps'| && ps'[j] == (k, v) && forall j' :: j < j' < |ps'| ==> ps'[j'].0 != k)
        {
          LastAtDrop(ps, ps', k, v, j);
        }
      } else {
        LastAtEnd(ps, k, v);
      }
    }
  }

  /** A last pair with another key decides nothing about `k`. */
  lemma LastAtDrop<V>(ps: seq<(string, V)>, ps': seq<(string, V)>, k: string, v: V, j: int)
    requires ps != [] && ps[|ps| - 1].0 != k && ps' == ps[..|ps| - 1]
    ensures (0 <= j < |ps| && ps[j] == (k, v) && forall j' :: j < j' < |ps| ==> ps[j'].0 != k) <==>
      (0 <= j < |ps'| && ps'[j] == (k, v) && forall j' :: j < j' < |ps'| ==> ps'[j'].0 != k)
  {
  }

  /** A last pair with key `k` decides it. */
  lemma LastAtEnd<V>(ps: seq<(string, V)>, k: string, v: V)
    requires ps != [] && ps[|ps| - 1].0 == k
    ensures (exists j :: 0 <= j < |ps| && ps[j] == (k, v) && forall j' :: j < j' < |ps| ==> ps[j'].0 != k) <==>
      ps[|ps| - 1].1 == v
  {
    var n := |ps| - 1;
    if ps[n].1 == v {
      assert ps[n] == (k, v);
    }
  }

  /** No item after position `j` produces a pair with key `k`. */
  ghost predicate NoLaterKey<A, V>(s: seq<A>, f: A -> Option<(string, V)>, k: string, j: int) {
    forall j' :: 0 <= j' < |s| && j < j' ==> !(f(s[j']).Some? && f(s[j']).value.0 == k)
  }

  /** Item `j` produces `(k, v)` and no later item produces key `k`. */
  ghost predicate DecidesKey<A, V>(s: seq<A>, f: A -> Option<(string, V)>, k: string, v: V, j: int) {
    0 <= j < |s| && f(s[j]) == Some((k, v)) && NoLaterKey(s, f, k, j)
  }

  /** Pairs produced by a filtering comprehension: the last producing item decides. */
  lemma {:induction false} LastValueFilterMap<A, V>(s: seq<A>, f: A -> Option<(string, V)>, k: string, v: V)
    ensures LastValue(FilterMap(s, f), k) == Some(v) <==> exists j :: DecidesKey(s, f, k, v, j)
    decreases |s|
  {
    if s != [] {
      var n := |s| - 1;
      var s' := s[..n];
      var rest := FilterMap(s', f);
      var ys := FilterMap(s, f);
      LastValueFilterMap(s', f, k, v);
      if f(s[n]).Some? && f(s[n]).value.0 == k {
        assert ys == rest + [f(s[n]).value];
        if LastValue(ys, k) == Some(v) {
          assert DecidesKey(s, f, k, v, n);
        }
        if exists j :: DecidesKey(s, f, k, v, j) {
          var j :| DecidesKey(s, f, k, v, j);
          assert j == n;
        }
      } else {
        if f(s[n]).Some? {
          assert ys == rest + [f(s[n]).value];
          assert ys[..|ys| - 1] == rest;
        } else {
          assert ys == rest;
        }
        assert LastValue(ys, k) == LastValue(rest, k);
        if exists j :: DecidesKey(s, f, k, v, j) {
          var j :| DecidesKey(s, f, k, v, j);
          DecidesKeyPrefix(s, f, k, v, j);
        }
        if exists j :: DecidesKey(s', f, k, v, j) {
          var j :| DecidesKey(s', f, k, v, j);
          DecidesKeyExtend(s, f, k, v, j);
        }
      }
    }
  }

  /** An item that produces another key can be dropped from the end. */
  lemma DecidesKeyPrefix<A, V>(s: seq<A>, f: A -> Option<(string, V)>, k: string, v: V, j: int)
    requires s != [] && DecidesKey(s, f, k, v, j)
    requires !(f(s[|s| - 1]).Some? && f(s[|s| - 1]).value.0 == k)
    ensures DecidesKey(s[..|s| - 1], f, k, v, j)
  {
    var s' := s[..|s| - 1];
    assert j < |s'|;
    assert forall j' :: j < j' < |s'| ==> s'[j'] == s[j'];
  }

  /** An item that produces another key can be added at the end. */
  lemma DecidesKeyExtend<A, V>(s: seq<A>, f: A -> Option<(string, V)>, k: string, v: V, j: int)
    requires s != [] && DecidesKey(s[..|s| - 1], f, k, v, j)
    requires !(f(s[|s| - 1]).Some? && f(s[|s| - 1]).value.0 == k)
    ensures DecidesKey(s, f, k, v, j)
  {
    var s' := s[..|s| - 1];
    assert s[j] == s'[j];
    forall j' | j < j' < |s|
      ensures !(f(s[j']).Some? && f(s[j']).value.0 == k)
    {
      if j' < |s'| {
        assert s[j'] == s'[j'];
      }
    }
  }

  /** Later assignments win: every key reads the last value assigned to it. */
  lemma {:induction false} SetAllGet<V>(d: Dict<V>, ps: seq<(string, V)>, k: string)
    ensures Get(SetAll(d, ps), k) == match LastValue(ps, k) case Some(v) => Some(v) case None => Get(d, k)
    decreases |ps|
  {
    if ps != [] {
      SetAllGet(d, ps[..|ps| - 1], k);
    }
  }

  /** Assigning `vals` to `keys` position by position gives a valid dictionary whose keys are the keys in first-seen order. */
  lemma ZipKeys<V>(keys: seq<string>, vals: seq<V>)
    ensures Valid(SetAll([], Zip(keys, vals)))
    ensures Keys(SetAll([], Zip(keys, vals))) == AddKeys([], keys[..Min(|keys|, |vals|)])
  {
    var ps := Zip(keys, vals);
    var empty: Dict<V> := [];
    SetAllValid(empty, ps);
    SetAllKeys(empty, ps);
    assert Keys(empty) == [];
    assert Keys(ps) == keys[..Min(|keys|, |vals|)];
  }

  /** Assigning `vals` to `keys` position by position: each key reads the value at its last position. */
  lemma ZipGet<V>(keys: seq<string>, vals: seq<V>, k: string, v: V)
    ensures Get(SetAll([], Zip(keys, vals)), k) == Some(v) <==>
      exists j :: 0 <= j < Min(|keys|, |vals|) && keys[j] == k && vals[j] == v
        && forall j' :: j < j' < Min(|keys|, |vals|) ==> keys[j'] != k
  {
    var ps := Zip(keys, vals);
    SetAllGet([], ps, k);
    var empty: Dict<V> := [];
    assert Get(empty, k) == None;
    assert Get(SetAll([], ps), k) == LastValue(ps, k);
    ZipLastValue(keys, vals, k, v);
  }

  /** The last zipped pair for `k` is the last position of `k` among the keys. */
  lemma ZipLastValue<V>(keys: seq<string>, vals: seq<V>, k: string, v: V)
    ensures LastValue(Zip(keys, vals), k) == Some(v) <==>
      exists j :: 0 <= j < Min(|keys|, |vals|) && keys[j] == k && vals[j] == v
        && forall j' :: j < j' < Min(|keys|, |vals|) ==> keys[j'] != k
  {
    var ps := Zip(keys, vals);
    var m := Min(|keys|, |vals|);
    LastValueAt(ps, k, v);
    if LastValue(ps, k) == Some(v) {
      var j :| 0 <= j < |ps| && ps[j] == (k, v) && forall j' :: j < j' < |ps| ==> ps[j'].0 != k;
      ZipLastAt(keys, vals, k, v, j);
    }
    if exists j :: 0 <= j < m && keys[j] == k && vals[j] == v && forall j' :: j < j' < m ==> keys[j'] != k {
      var j :| 0 <= j < m && keys[j] == k && vals[j] == v && forall j' :: j < j' < m ==> keys[j'] != k;
      ZipLastAt(keys, vals, k, v, j);
    }
  }

  /** Position `j` of the zipped pairs is the last one with key `k` exactly when it is in `keys`. */
  lemma ZipLastAt<V>(keys: seq<string>, vals: seq<V>, k: string, v: V, j: int)
    requires 0 <= j < Min(|keys|, |vals|)
    ensures var ps := Zip(keys, vals);
      (ps[j] == (k, v) && forall j' :: j < j' < |ps| ==> ps[j'].0 != k) <==>
      (keys[j] == k && vals[j] == v && forall j' :: j < j' < Min(|keys|, |vals|) ==> keys[j'] != k)
  {
  }

  /** `ks` followed by every key of `more` not seen before, in first-seen order. */
  function AddKeys(ks: seq<string>, more: seq<string>): seq<string> {
    if more == [] then ks
    else
      var r := AddKeys(ks, more[..|more| - 1]);
      if more[|more| - 1] in r then r else r + [more[|more| - 1]]
  }

  /** A key keeps the position of its first assignment, and new keys come in first-seen order. */
  lemma {:induction false} SetAllKeys<V>(d: Dict<V>, ps: seq<(string, V)>)
    ensures Keys(SetAll(d, ps)) == AddKeys(Keys(d), Keys(ps))
    decreases |ps|
  {
    if ps != [] {
      var ps' := ps[..|ps| - 1];
      SetAllKeys(d, ps');
      assert Keys(ps)[..|ps| - 1] == Keys(ps');
    }
  }

  /** Assignments never move or remove a key. */
  lemma SetAllExtends<V>(d: Dict<V>, ps: seq<(string, V)>)
    ensures Keys(d) <= Keys(SetAll(d, ps))
  {
    SetAllKeys(d, ps);
    AddKeysExtends(Keys(d), Keys(ps));
  }

  /** Assignments keep a dict valid. */
  lemma {:induction false} SetAllValid<V>(d: Dict<V>, ps: seq<(string, V)>)
    requires Valid(d)
    ensures Valid(SetAll(d, ps))
    decreases |ps|
  {
    if ps != [] {
      SetAllValid(d, ps[..|ps| - 1]);
    }
  }

  /** The keys present before any assignments keep their positions. */
  lemma {:induction false} AddKeysExtends(ks: seq<string>, more: seq<string>)
    ensures ks <= AddKeys(ks, more)
    decreases |more|
  {
    if more != [] {
      AddKeysExtends(ks, more[..|more| - 1]);
    }
  }

  /** Exactly the keys present before and the keys assigned are present. */
  lemma {:induction false} AddKeysMember(ks: seq<string>, more: seq<string>, x: string)
    ensures x in AddKeys(ks, more) <==> x in ks || x in more
    decreases |more|
  {
    if more != [] {
      var more' := more[..|more| - 1];
      AddKeysMember(ks, more', x);
      assert more == more' + [more[|more| - 1]];
    }
  }

  /** With no repeated and no already-present keys, every pair adds one entry, in order. */
  lemma {:induction false} AddKeysFresh(ks: seq<string>, more: seq<string>)
    requires Distinct(ks + more)
    ensures AddKeys(ks, more) == ks + more
    decreases |more|
  {
    if more != [] {
      var more' := more[..|more| - 1];
      var n := |more| - 1;
      assert ks + more' == (ks + more)[..|ks| + n];
      AddKeysFresh(ks, more');
      assert more[n] == (ks + more)[|ks| + n];
      assert forall i :: 0 <= i < |ks + more'| ==> (ks + more')[i] == (ks + more)[i];
      assert more[n] !in ks + more';
      assert ks + more' + [more[n]] == ks + more;
    }
  }
}
