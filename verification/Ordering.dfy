/** Lexicographic order on triples and the ascending iteration order of ordered sets and maps. */
module Ordering {

  datatype Key = Key(a: nat, b: nat, c: nat)

  predicate Less(x: Key, y: Key) {
    x.a < y.a || (x.a == y.a && (x.b < y.b || (x.b == y.b && x.c < y.c)))
  }

  predicate IsMin(m: Key, s: set<Key>) {
    m in s && forall k :: k in s ==> k == m || Less(m, k)
  }

  lemma MinExists(s: set<Key>)
    requires s != {}
    ensures exists m :: IsMin(m, s)
    decreases |s|
  {
    var x :| x in s;
    if s == {x} {
      assert IsMin(x, s);
    } else {
      var rest := s - {x};
      assert rest != {};
      MinExists(rest);
      var m :| IsMin(m, rest);
      var best := if Less(x, m) then x else m;
      forall k | k in s
        ensures k == best || Less(best, k)
      {
        assert k == x || k in rest;
      }
      assert IsMin(best, s);
    }
  }

  /** The element an ordered container visits first. */
  ghost function Min(s: set<Key>): (m: Key)
    requires s != {}
    ensures IsMin(m, s)
  {
    MinExists(s);
    var m :| IsMin(m, s);
    m
  }

  method FindMin(s: set<Key>) returns (m: Key)
    requires s != {}
    ensures m == Min(s)
  {
    MinExists(s);
    m :| IsMin(m, s);
  }

  /** Every element of an ordered container, in visiting order. */
  ghost function Sorted(s: set<Key>): seq<Key>
    decreases |s|
  {
    if s == {} then [] else [Min(s)] + Sorted(s - {Min(s)})
  }

  ghost predicate Increasing(ks: seq<Key>) {
    forall i, j :: 0 <= i < j < |ks| ==> Less(ks[i], ks[j])
  }

  lemma {:induction false} SortedEnumerates(s: set<Key>)
    ensures forall k :: k in Sorted(s) <==> k in s
    ensures Increasing(Sorted(s)) && |Sorted(s)| == |s|
    decreases |s|
  {
    if s != {} {
      var m, rest := Min(s), s - {Min(s)};
      SortedEnumerates(rest);
      var tail := Sorted(rest);
      forall j | 0 <= j < |tail|
        ensures Less(m, tail[j])
      {
        assert tail[j] in rest;
      }
    }
  }

  /** Visiting order, field by field. */
  lemma InFieldOrder(s: set<Key>)
    ensures forall i, j :: 0 <= i < j < |Sorted(s)| ==>
              var x, y := Sorted(s)[i], Sorted(s)[j];
              x.a < y.a || (x.a == y.a && x.b < y.b) || (x.a == y.a && x.b == y.b && x.c < y.c)
  {
    SortedEnumerates(s);
  }
}
