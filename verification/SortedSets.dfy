/** Sets of Go strings in sorted order, as sort.Strings leaves them. */
module SortedSets {
  import opened Bytes

  predicate StrictlySorted(ks: seq<Text>) {
    forall i, j :: 0 <= i < j < |ks| ==> Less(ks[i], ks[j])
  }

  ghost function Least(s: set<Text>): (k: Text)
    requires s != {}
    ensures k in s
    ensures forall x :: x in s && x != k ==> Less(k, x)
  {
    var x :| x in s;
    if s == {x} then x
    else
      var y := Least(s - {x});
      LessTrichotomy(x, y);
      assert Less(x, y) ==> forall z :: z in s && z != x && z != y ==> Less(x, z) by {
        if Less(x, y) {
          forall z | z in s && z != x && z != y ensures Less(x, z) { LessTransitive(x, y, z); }
        }
      }
      if Less(x, y) then x else y
  }

  /** A set of strings in Go's order: the keys of an object as the encoder emits them, and lock
      IDs as they are acquired. */
  ghost function SortedKeys(s: set<Text>): (ks: seq<Text>)
    ensures StrictlySorted(ks)
    ensures forall k :: k in ks <==> k in s
  {
    if s == {} then []
    else
      var k := Least(s);
      var rest := SortedKeys(s - {k});
      assert forall j :: 0 <= j < |rest| ==> rest[j] in rest;
      [k] + rest
  }

  lemma SortedTail(ks: seq<Text>)
    requires StrictlySorted(ks) && ks != []
    ensures StrictlySorted(ks[1..])
    ensures forall k :: k in ks[1..] <==> k in ks && k != ks[0]
  {
    var tail := ks[1..];
    assert ks == [ks[0]] + tail;
    forall i | 0 <= i < |tail| ensures tail[i] != ks[0] {
      assert Less(ks[0], ks[i + 1]);
      LessTrichotomy(ks[0], ks[i + 1]);
    }
  }

  /** There is only one way to sort a set of keys. */
  lemma {:induction false} SortedKeysUnique(a: seq<Text>, b: seq<Text>)
    requires StrictlySorted(a) && StrictlySorted(b)
    requires forall k :: k in a <==> k in b
    ensures a == b
  {
    assert forall i :: 0 <= i < |a| ==> a[i] in b;
    assert forall i :: 0 <= i < |b| ==> b[i] in a;
    if a != [] {
      LessTrichotomy(a[0], b[0]);
      assert a[0] == b[0];
      SortedTail(a);
      SortedTail(b);
      SortedKeysUnique(a[1..], b[1..]);
      assert a == [a[0]] + a[1..] && b == [b[0]] + b[1..];
    }
  }
}
