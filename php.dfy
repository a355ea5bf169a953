/**
 * The few PHP values the rolling-curl queue handles: scalars, `null`, and
 * ordered arrays. A PHP array is an ordered dictionary whose keys are
 * distinct; it is modelled as a sequence of key/value pairs with distinct
 * keys (`Assoc`). `$a[$k] = $v` is `Assign`, `$l + $r` is `Union`,
 * `$a[$k]` is `Get`.
 */
module Php {

  datatype Option<+T> = None | Some(value: T) {
    function GetOr(default: T): T {
      match this
      case Some(v) => v
      case None => default
    }
  }

  /** An array key: PHP keys are integers or strings. */
  datatype Key = IntKey(n: int) | StrKey(s: string)

  /** A PHP value (floats and objects other than requests are not modelled). */
  datatype Value =
    | Null
    | Bool(b: bool)
    | Int(i: int)
    | Str(s: string)
    | Arr(entries: seq<(Key, Value)>)

  /** PHP's conversion to boolean, as used by `if ($x)`. */
  predicate Truthy(v: Value) {
    match v
    case Null => false
    case Bool(b) => b
    case Int(i) => i != 0
    case Str(s) => s != "" && s != "0"
    case Arr(entries) => |entries| > 0
  }

  predicate DistinctKeys<V>(a: seq<(Key, V)>) {
    forall i, j :: 0 <= i < j < |a| ==> a[i].0 != a[j].0
  }

  /** An ordered PHP array: each key occurs at most once. */
  type Assoc<V> = a: seq<(Key, V)> | DistinctKeys(a) witness []

  function Keys<V>(a: seq<(Key, V)>): set<Key> {
    set i | 0 <= i < |a| :: a[i].0
  }

  /** `$a[$k]`, or `None` when the key is absent. */
  function Get<V>(a: seq<(Key, V)>, k: Key): (r: Option<V>)
    ensures r.Some? <==> k in Keys(a)
  {
    if a == [] then None
    else if a[0].0 == k then Some(a[0].1)
    else
      assert Keys(a) == {a[0].0} + Keys(a[1..]) by { KeysCons(a); }
      Get(a[1..], k)
  }

  lemma KeysCons<V>(a: seq<(Key, V)>)
    requires a != []
    ensures Keys(a) == {a[0].0} + Keys(a[1..])
  {
    forall k | k in Keys(a) ensures k in {a[0].0} + Keys(a[1..]) {
      var i :| 0 <= i < |a| && a[i].0 == k;
      if i > 0 { assert a[1..][i - 1].0 == k; }
    }
    forall k | k in Keys(a[1..]) ensures k in Keys(a) {
      var i :| 0 <= i < |a[1..]| && a[1..][i].0 == k;
      assert a[i + 1].0 == k;
    }
  }

  lemma KeysConcat<V>(l: seq<(Key, V)>, r: seq<(Key, V)>)
    ensures Keys(l + r) == Keys(l) + Keys(r)
  {
    forall k | k in Keys(l + r) ensures k in Keys(l) + Keys(r) {
      var i :| 0 <= i < |l + r| && (l + r)[i].0 == k;
      if i < |l| { assert l[i].0 == k; } else { assert r[i - |l|].0 == k; }
    }
    forall k | k in Keys(l) + Keys(r) ensures k in Keys(l + r) {
      if k in Keys(l) {
        var i :| 0 <= i < |l| && l[i].0 == k;
        assert (l + r)[i].0 == k;
      } else {
        var i :| 0 <= i < |r| && r[i].0 == k;
        assert (l + r)[|l| + i].0 == k;
      }
    }
  }

  /** Looking a key up in a concatenation: the left part is searched first. */
  lemma {:induction false} GetConcat<V>(l: seq<(Key, V)>, r: seq<(Key, V)>, k: Key)
    ensures Get(l + r, k) == if k in Keys(l) then Get(l, k) else Get(r, k)
  {
    if l == [] {
      assert l + r == r;
    } else {
      assert (l + r)[1..] == l[1..] + r;
      KeysCons(l);
      GetConcat(l[1..], r, k);
    }
  }

  /** In an array with distinct keys, `Get` finds the value stored at the key's position. */
  lemma {:induction false} GetAt<V>(a: Assoc<V>, i: nat)
    requires i < |a|
    ensures Get(a, a[i].0) == Some(a[i].1)
  {
    if i > 0 {
      assert a[0].0 != a[i].0;
      var t: Assoc<V> := a[1..];
      assert t[i - 1] == a[i];
      GetAt(t, i - 1);
    }
  }

  /**
   * `$a[$k] = $v`: an existing key keeps its position and gets the new
   * value; a new key is appended at the end.
   */
  function Assign<V>(a: Assoc<V>, k: Key, v: V): (r: Assoc<V>)
    ensures Keys(r) == Keys(a) + {k}
  {
    if a == [] then
      assert Keys(a) == {};
      assert Keys([(k, v)]) == {k} by { KeysCons([(k, v)]); }
      [(k, v)]
    else
      KeysCons(a);
      var t: Assoc<V> := a[1..];
      if a[0].0 == k then
        var r := [(k, v)] + t;
        assert r == [(k, v)] + a[1..];
        assert DistinctKeys(r) by {
          forall i, j | 0 <= i < j < |r| ensures r[i].0 != r[j].0 {
            assert r[j] == a[j];
            if i > 0 { assert r[i] == a[i]; }
          }
        }
        KeysCons(r);
        assert r[1..] == t;
        r
      else
        var rest := Assign(t, k, v);
        var r := [a[0]] + rest;
        assert a[0].0 !in Keys(t) by {
          forall i | 0 <= i < |t| ensures t[i].0 != a[0].0 { assert t[i] == a[i + 1]; }
        }
        assert DistinctKeys(r) by {
          forall i, j | 0 <= i < j < |r| ensures r[i].0 != r[j].0 {
            assert r[j] == rest[j - 1];
            if i == 0 { assert rest[j - 1].0 in Keys(rest); }
            else { assert r[i] == rest[i - 1]; }
          }
        }
        KeysCons(r);
        assert r[1..] == rest;
        r
  }

  /** Assigning to an existing key keeps the key order; a new key goes at the end. */
  lemma {:induction false} AssignOrder<V>(a: Assoc<V>, k: Key, v: V)
    ensures k in Keys(a) ==> |Assign(a, k, v)| == |a| && forall i :: 0 <= i < |a| ==> Assign(a, k, v)[i].0 == a[i].0
    ensures k !in Keys(a) ==> Assign(a, k, v) == a + [(k, v)]
  {
    if a != [] {
      KeysCons(a);
      var t: Assoc<V> := a[1..];
      if a[0].0 != k {
        AssignOrder(t, k, v);
        assert Assign(a, k, v) == [a[0]] + Assign(t, k, v);
        if k !in Keys(a) {
          assert a == [a[0]] + t;
        }
      }
    }
  }

  lemma {:induction false} GetAssign<V>(a: Assoc<V>, k: Key, v: V, k': Key)
    ensures Get(Assign(a, k, v), k') == if k' == k then Some(v) else Get(a, k')
  {
    if a != [] {
      var t: Assoc<V> := a[1..];
      if a[0].0 != k {
        assert Assign(a, k, v) == [a[0]] + Assign(t, k, v);
        assert ([a[0]] + Assign(t, k, v))[1..] == Assign(t, k, v);
        GetAssign(t, k, v, k');
      } else {
        assert Assign(a, k, v) == [(k, v)] + t;
        assert ([(k, v)] + t)[1..] == t;
      }
    }
  }

  /** The entries of `r` whose keys do not occur in `l`, in their order in `r`. */
  function Missing<V>(r: Assoc<V>, l: set<Key>): (m: Assoc<V>)
    ensures Keys(m) == Keys(r) - l
    ensures forall k :: k !in l ==> Get(m, k) == Get(r, k)
  {
    if r == [] then []
    else
      KeysCons(r);
      var t: Assoc<V> := r[1..];
      var rest := Missing(t, l);
      if r[0].0 in l then rest
      else
        var m := [r[0]] + rest;
        assert r[0].0 !in Keys(t) by {
          forall i | 0 <= i < |t| ensures t[i].0 != r[0].0 { assert t[i] == r[i + 1]; }
        }
        assert DistinctKeys(m) by {
          forall i, j | 0 <= i < j < |m| ensures m[i].0 != m[j].0 {
            assert m[j] == rest[j - 1];
            if i == 0 { assert rest[j - 1].0 in Keys(rest); }
            else { assert m[i] == rest[i - 1]; }
          }
        }
        KeysCons(m);
        assert m[1..] == rest;
        m
  }

  /** The first entry of `r` is dropped when its key is in `l` and kept otherwise. */
  lemma MissingCons<V>(r: Assoc<V>, l: set<Key>)
    requires r != []
    ensures Missing(r, l) == if r[0].0 in l then Missing(r[1..], l) else [r[0]] + Missing(r[1..], l)
  {
  }

  /**
   * `Missing` keeps the order of `r`: its entries stand in `r` at
   * positions that increase with their positions in `Missing(r, l)`.
   */
  lemma MissingOrder<V>(r: Assoc<V>, l: set<Key>, i: nat, j: nat)
    requires i <= j < |Missing(r, l)|
    ensures exists p, q :: 0 <= p <= q < |r| && (i < j ==> p < q) && r[p] == Missing(r, l)[i] && r[q] == Missing(r, l)[j]
  {
    var p, q := MissingPositions(r, l, i, j);
  }

  /** The positions in `r` of the entries `i` and `j` of `Missing(r, l)`. */
  lemma {:induction false} MissingPositions<V>(r: Assoc<V>, l: set<Key>, i: nat, j: nat) returns (p: nat, q: nat)
    requires i <= j < |Missing(r, l)|
    ensures p <= q < |r| && (i < j ==> p < q) && r[p] == Missing(r, l)[i] && r[q] == Missing(r, l)[j]
    decreases |r|
  {
    var t := r[1..];
    MissingCons(r, l);
    if r[0].0 in l {
      p, q := MissingPositions(t, l, i, j);
      p, q := p + 1, q + 1;
    } else if j == 0 {
      p, q := 0, 0;
    } else if i == 0 {
      var _, q' := MissingPositions(t, l, j - 1, j - 1);
      p, q := 0, q' + 1;
    } else {
      p, q := MissingPositions(t, l, i - 1, j - 1);
      p, q := p + 1, q + 1;
    }
  }

  /**
   * `$l + $r`: every entry of the left operand, in order, followed by the
   * entries of the right operand whose keys the left one lacks.
   */
  function Union<V>(l: Assoc<V>, r: Assoc<V>): (u: Assoc<V>)
    ensures Keys(u) == Keys(l) + Keys(r)
    ensures |u| >= |l| && u[..|l|] == l
    ensures u[|l|..] == Missing(r, Keys(l))
  {
    var m := Missing(r, Keys(l));
    var u := l + m;
    KeysConcat(l, m);
    assert DistinctKeys(u) by {
      forall i, j | 0 <= i < j < |u| ensures u[i].0 != u[j].0 {
        if j >= |l| {
          assert u[j] == m[j - |l|];
          assert m[j - |l|].0 in Keys(m);
          if i < |l| { assert u[i].0 in Keys(l); } else { assert u[i] == m[i - |l|]; }
        }
      }
    }
    assert u[..|l|] == l;
    u
  }

  /** Which key wins in `$l + $r`: the left operand's, and the right one fills the gaps. */
  lemma GetUnion<V>(l: Assoc<V>, r: Assoc<V>, k: Key)
    ensures Get(Union(l, r), k) == if k in Keys(l) then Get(l, k) else Get(r, k)
  {
    GetConcat(l, Missing(r, Keys(l)), k);
  }

  /**
   * `list($key, ) = array_keys($a, $v)`: the first key whose value equals
   * `$v`, or `None` (PHP's `null`) when there is none.
   */
  function FirstKeyOf<V(==)>(a: Assoc<V>, v: V): (r: Option<Key>)
    ensures r.None? <==> forall i :: 0 <= i < |a| ==> a[i].1 != v
    ensures r.Some? ==> exists i :: 0 <= i < |a| && a[i] == (r.value, v)
                           && forall j :: 0 <= j < i ==> a[j].1 != v
  {
    if a == [] then None
    else if a[0].1 == v then Some(a[0].0)
    else
      var t: Assoc<V> := a[1..];
      var r := FirstKeyOf(t, v);
      assert r.None? ==> forall i :: 0 <= i < |a| ==> a[i].1 != v by {
        if r.None? {
          forall i | 0 <= i < |a| ensures a[i].1 != v {
            if i > 0 { assert a[i] == t[i - 1]; }
          }
        }
      }
      assert r.Some? ==> exists i :: 0 <= i < |a| && a[i] == (r.value, v)
                           && forall j :: 0 <= j < i ==> a[j].1 != v by {
        if r.Some? {
          var i :| 0 <= i < |t| && t[i] == (r.value, v) && forall j :: 0 <= j < i ==> t[j].1 != v;
          assert a[i + 1] == t[i];
          forall j | 0 <= j < i + 1 ensures a[j].1 != v {
            if j > 0 { assert a[j] == t[j - 1]; }
          }
        }
      }
      r
  }
}
