/** The combine operation of `Reveal::get`: bitwise exclusive-or of the
    participants' values (`*v ^= value` with `BitXorAssign` on `u64`). */
module Combine {

  /** One `^=` step. */
  function Xor(a: bv64, b: bv64): bv64 {
    a ^ b
  }

  /** Exclusive-or is commutative, ... */
  lemma XorCommutes(a: bv64, b: bv64)
    ensures Xor(a, b) == Xor(b, a)
  {
  }

  /** ... associative ... */
  lemma XorAssociates(a: bv64, b: bv64, c: bv64)
    ensures Xor(a, Xor(b, c)) == Xor(Xor(a, b), c)
  {
  }

  /** ... and has 0 as its identity: the laws that make the combination
      independent of the order of the participants. */
  lemma XorIdentity(a: bv64)
    ensures Xor(a, 0) == a && Xor(0, a) == a
  {
  }

  /** Some element of a non-empty set. */
  ghost function Pick<K>(s: set<K>): (k: K)
    requires s != {}
    ensures k in s
  {
    var k :| k in s; k
  }

  /** The exclusive-or of `f[i]` over the ids `ids`, taken in no particular order. */
  ghost function XorOver<K>(ids: set<K>, f: map<K, bv64>): bv64
    requires ids <= f.Keys
    decreases ids
  {
    if ids == {} then 0 else var i := Pick(ids); Xor(f[i], XorOver(ids - {i}, f))
  }

  /** Any id can be taken out first. */
  lemma {:induction false} XorOverRemove<K>(ids: set<K>, f: map<K, bv64>, x: K)
    requires ids <= f.Keys && x in ids
    ensures XorOver(ids, f) == Xor(f[x], XorOver(ids - {x}, f))
    decreases ids
  {
    var y := Pick(ids);
    if y != x {
      var rest := ids - {x} - {y};
      assert ids - {y} - {x} == rest;
      XorOverRemove(ids - {y}, f, x);
      XorOverRemove(ids - {x}, f, y);
      XorAssociates(f[y], f[x], XorOver(rest, f));
      XorAssociates(f[x], f[y], XorOver(rest, f));
      XorCommutes(f[x], f[y]);
    }
  }

  /** Over a single id the combination is that id's value. */
  lemma XorOverSingleton<K>(x: K, f: map<K, bv64>)
    requires x in f
    ensures XorOver({x}, f) == f[x]
  {
    XorOverRemove({x}, f, x);
    assert {x} - {x} == {};
    XorIdentity(f[x]);
  }

  /** Over two ids the combination is the exclusive-or of their values. */
  lemma XorOverPair<K>(x: K, y: K, f: map<K, bv64>)
    requires x in f && y in f && x != y
    ensures XorOver({x, y}, f) == Xor(f[x], f[y])
  {
    XorOverRemove({x, y}, f, x);
    assert {x, y} - {x} == {y};
    XorOverSingleton(y, f);
  }

  /** Adding one more id combines its value into the result. */
  lemma XorOverAdd<K>(ids: set<K>, f: map<K, bv64>, x: K)
    requires ids <= f.Keys && x in f && x !in ids
    ensures XorOver(ids + {x}, f) == Xor(XorOver(ids, f), f[x])
  {
    XorOverRemove(ids + {x}, f, x);
    assert ids + {x} - {x} == ids;
    XorCommutes(f[x], XorOver(ids, f));
  }

  ghost predicate Distinct<K>(s: seq<K>) {
    forall j, k :: 0 <= j < k < |s| ==> s[j] != s[k]
  }

  /** Folding `^` along a visiting order, as `get` does for one iteration
      order of the commit map. */
  function XorAlong<K>(order: seq<K>, f: map<K, bv64>): bv64
    requires forall k :: k in order ==> k in f
  {
    if order == [] then 0 else Xor(f[order[0]], XorAlong(order[1..], f))
  }

  /** Every order that visits each id of `ids` exactly once yields the same
      combination: the result does not depend on the iteration order. */
  lemma {:induction false} XorAlongAnyOrder<K>(order: seq<K>, ids: set<K>, f: map<K, bv64>)
    requires Distinct(order)
    requires forall k :: k in order <==> k in ids
    requires ids <= f.Keys
    ensures XorAlong(order, f) == XorOver(ids, f)
  {
    if order != [] {
      var rest := order[1..];
      forall k ensures k in rest <==> k in ids - {order[0]} {
        if k in rest {
          var j :| 0 <= j < |rest| && rest[j] == k;
          assert order[j + 1] == k;
        }
        if k in ids - {order[0]} {
          assert k in order;
          var j :| 0 <= j < |order| && order[j] == k;
          assert rest[j - 1] == k;
        }
      }
      XorAlongAnyOrder(rest, ids - {order[0]}, f);
      XorOverRemove(ids, f, order[0]);
    }
  }

  /** Corollary: two visiting orders of the same ids agree. */
  lemma OrderIndependent<K>(p: seq<K>, q: seq<K>, f: map<K, bv64>)
    requires Distinct(p) && Distinct(q)
    requires forall k :: k in p <==> k in q
    requires forall k :: k in p ==> k in f
    ensures XorAlong(p, f) == XorAlong(q, f)
  {
    var ids := set k | k in p;
    XorAlongAnyOrder(p, ids, f);
    XorAlongAnyOrder(q, ids, f);
  }
}
