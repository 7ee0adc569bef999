/** The descendants a cascade archives: a depth-bounded search of the parent relation, which may
    contain cycles, and the order it leaves them in. */
module Descendants {
  import opened Bytes
  import opened Options

  /** The open children the index reports for an item; a failing query reports none. */
  type Children = Text -> seq<Text>
  type Parent = Text -> Option<Text>

  /** Every item has at most one parent, and a parent's children are listed once. */
  ghost predicate Indexed(kids: Children, parent: Parent) {
    && (forall p, x :: x in kids(p) <==> parent(x) == Some(p))
    && (forall p, i, j :: 0 <= i < j < |kids(p)| ==> kids(p)[i] != kids(p)[j])
  }

  /** The k-th ancestor. */
  function Up(parent: Parent, x: Text, k: nat): Option<Text> {
    if k == 0 then Some(x)
    else
      match Up(parent, x, k - 1)
      case None => None
      case Some(y) => parent(y)
  }

  lemma {:induction false} UpFromParent(parent: Parent, x: Text, k: nat)
    requires parent(x).Some?
    ensures Up(parent, x, k + 1) == Up(parent, parent(x).value, k)
  {
    if k > 0 {
      UpFromParent(parent, x, k - 1);
    } else {
      assert Up(parent, x, 1) == parent(x);
    }
  }

  // ---- the search ----

  datatype Found = Found(items: seq<Text>, visited: set<Text>)

  function Search(kids: Children, p: Text, visited: set<Text>, d: nat): Found
    decreases d, 0, 0
  {
    if d == 0 || p in visited then Found([], visited)
    else SearchAll(kids, kids(p), visited + {p}, d - 1)
  }

  /** The children cs, each followed by what lies below it, down to d more levels. */
  function SearchAll(kids: Children, cs: seq<Text>, visited: set<Text>, d: nat): Found
    decreases d, 1, |cs|
  {
    if cs == [] then Found([], visited)
    else
      var init, c := cs[..|cs| - 1], cs[|cs| - 1];
      var before := SearchAll(kids, init, visited, d);
      var below := Search(kids, c, before.visited, d);
      Found(before.items + ([c] + below.items), below.visited)
  }

  class Collector {
    var visited: set<Text>

    /** collectDescendants. */
    method Collect(kids: Children, p: Text, depth: nat, maxDepth: nat) returns (result: seq<Text>)
      modifies this
      ensures depth <= maxDepth ==> Found(result, visited) == Search(kids, p, old(visited), maxDepth - depth)
      ensures depth >= maxDepth ==> result == [] && visited == old(visited)
      decreases maxDepth - depth
    {
      if depth >= maxDepth || p in visited {
        return [];
      }
      visited := visited + {p};
      ghost var start := visited;
      var children := kids(p);
      result := [];
      for i := 0 to |children|
        invariant Found(result, visited) == SearchAll(kids, children[..i], start, maxDepth - depth - 1)
      {
        var child := children[i];
        assert children[..i + 1][..i] == children[..i];
        var below := Collect(kids, child, depth + 1, maxDepth);
        result := result + ([child] + below);
      }
      assert children[..|children|] == children;
    }
  }

  // ---- what the search finds ----

  /** Every visited item but the root was reached from a visited parent. */
  ghost predicate Reached(parent: Parent, root: Text, visited: set<Text>) {
    forall v :: v in visited && v != root ==> parent(v).Some? && parent(v).value in visited
  }

  predicate NoRepeat(s: seq<Text>) {
    forall i, j :: 0 <= i < j < |s| ==> s[i] != s[j]
  }

  /** Every item is a child of p or comes after its parent. */
  ghost predicate ParentsFirst(parent: Parent, s: seq<Text>, p: Text) {
    forall i :: 0 <= i < |s| ==> parent(s[i]) == Some(p) || exists j :: 0 <= j < i && parent(s[i]) == Some(s[j])
  }

  /** Items are listed exactly when their parent was newly visited; newly visited items were
      listed by this search, except p. */
  ghost predicate ListsChildren(parent: Parent, items: seq<Text>, old_: set<Text>, new_: set<Text>, p: Text) {
    && old_ <= new_
    && (forall x :: x in items <==> parent(x).Some? && parent(x).value in new_ - old_)
    && (forall e :: e in new_ - old_ ==> e == p || e in items)
  }

  /** The same for a search below several children of p, none of them visited but the root. */
  ghost predicate ListsBelow(parent: Parent, cs: seq<Text>, items: seq<Text>, old_: set<Text>, new_: set<Text>) {
    && old_ <= new_
    && (forall x :: x in items <==> x in cs || (parent(x).Some? && parent(x).value in new_ - old_))
    && (forall e :: e in new_ - old_ ==> e in items)
  }

  ghost predicate Entered(parent: Parent, root: Text, p: Text, visited: set<Text>) {
    Reached(parent, root, visited) && (p == root || (parent(p).Some? && parent(p).value in visited))
  }

  lemma {:induction false} SearchLists(kids: Children, parent: Parent, root: Text, p: Text, visited: set<Text>, d: nat)
    requires Indexed(kids, parent) && Entered(parent, root, p, visited)
    ensures var f := Search(kids, p, visited, d);
      && Reached(parent, root, f.visited) && ListsChildren(parent, f.items, visited, f.visited, p)
      && NoRepeat(f.items) && ParentsFirst(parent, f.items, p)
    decreases d, 0, 0
  {
    if d > 0 && p !in visited {
      var cs := kids(p);
      assert forall c :: c in cs ==> parent(c) == Some(p);
      SearchAllLists(kids, parent, root, p, cs, visited + {p}, d - 1);
    }
  }

  lemma {:induction false} SearchAllLists(kids: Children, parent: Parent, root: Text, p: Text, cs: seq<Text>, visited: set<Text>, d: nat)
    requires Indexed(kids, parent) && Reached(parent, root, visited) && p in visited
    requires NoRepeat(cs) && forall c :: c in cs ==> parent(c) == Some(p)
    ensures var f := SearchAll(kids, cs, visited, d);
      && Reached(parent, root, f.visited) && ListsBelow(parent, cs, f.items, visited, f.visited)
      && NoRepeat(f.items) && ParentsFirst(parent, f.items, p)
    decreases d, 1, |cs|
  {
    if cs != [] {
      var init, c := cs[..|cs| - 1], cs[|cs| - 1];
      assert cs == init + [c];
      SearchAllLists(kids, parent, root, p, init, visited, d);
      var before := SearchAll(kids, init, visited, d);
      SearchLists(kids, parent, root, c, before.visited, d);
      var below := Search(kids, c, before.visited, d);
      Join(parent, p, init, c, before, below, visited);
    }
  }

  lemma Join(parent: Parent, p: Text, init: seq<Text>, c: Text, before: Found, below: Found, visited: set<Text>)
    requires p in visited && c !in init && parent(c) == Some(p) && forall x :: x in init ==> parent(x) == Some(p)
    requires ListsBelow(parent, init, before.items, visited, before.visited)
    requires ListsChildren(parent, below.items, before.visited, below.visited, c)
    requires NoRepeat(before.items) && NoRepeat(below.items)
    requires ParentsFirst(parent, before.items, p) && ParentsFirst(parent, below.items, c)
    ensures var items := before.items + ([c] + below.items);
      ListsBelow(parent, init + [c], items, visited, below.visited) && NoRepeat(items) && ParentsFirst(parent, items, p)
  {
    assert c !in before.items && c !in below.items;
    forall x | x in below.items ensures x !in before.items {
      assert parent(x).value !in before.visited;
    }
    JoinLists(parent, init, c, before, below, visited);
    hide ListsBelow, ListsChildren;
    JoinNoRepeat(before.items, c, below.items);
    JoinOrder(parent, p, before.items, c, below.items);
  }

  lemma JoinLists(parent: Parent, init: seq<Text>, c: Text, before: Found, below: Found, visited: set<Text>)
    requires ListsBelow(parent, init, before.items, visited, before.visited)
    requires ListsChildren(parent, below.items, before.visited, below.visited, c)
    ensures ListsBelow(parent, init + [c], before.items + ([c] + below.items), visited, below.visited)
  {
    var items := before.items + ([c] + below.items);
    assert below.visited - visited == (below.visited - before.visited) + (before.visited - visited);
    forall x ensures x in items <==> x in before.items || x == c || x in below.items {}
  }

  lemma JoinNoRepeat(a: seq<Text>, c: Text, b: seq<Text>)
    requires NoRepeat(a) && NoRepeat(b) && c !in a && c !in b && forall x :: x in b ==> x !in a
    ensures NoRepeat(a + ([c] + b))
  {
    var s, n := a + ([c] + b), |a|;
    forall i, j | 0 <= i < j < |s| ensures s[i] != s[j] {
      assert i < n ==> s[i] in a;
      assert i > n ==> s[i] in b && s[i] == b[i - n - 1];
      assert j > n ==> s[j] in b && s[j] == b[j - n - 1];
    }
  }

  lemma JoinOrder(parent: Parent, p: Text, a: seq<Text>, c: Text, b: seq<Text>)
    requires parent(c) == Some(p) && ParentsFirst(parent, a, p) && ParentsFirst(parent, b, c)
    ensures ParentsFirst(parent, a + ([c] + b), p)
  {
    var s, n := a + ([c] + b), |a|;
    forall i | 0 <= i < |s| ensures parent(s[i]) == Some(p) || exists j :: 0 <= j < i && parent(s[i]) == Some(s[j]) {
      if i < n {
        assert s[i] == a[i];
        if parent(a[i]) != Some(p) {
          var j :| 0 <= j < i && parent(a[i]) == Some(a[j]);
          assert s[j] == a[j];
        }
      } else if i > n {
        var k := i - n - 1;
        assert s[i] == b[k] && s[n] == c;
        if parent(b[k]) != Some(c) {
          var j :| 0 <= j < k && parent(b[k]) == Some(b[j]);
          assert s[n + 1 + j] == b[j];
        }
      }
    }
  }

  // ---- within the depth bound ----

  /** x is k levels below p, by a path that does not pass through the root. */
  predicate Below(parent: Parent, root: Text, x: Text, p: Text, k: nat) {
    k > 0 && Up(parent, x, k) == Some(p) && forall j :: 0 < j < k ==> Up(parent, x, j) != Some(root)
  }

  /** Whatever is listed lies at most d levels below. */
  lemma {:induction false} SearchSound(kids: Children, parent: Parent, p: Text, visited: set<Text>, d: nat, x: Text) returns (k: nat)
    requires Indexed(kids, parent) && x in Search(kids, p, visited, d).items
    ensures 0 < k <= d && Up(parent, x, k) == Some(p)
    decreases d, 0, 0
  {
    assert forall c :: c in kids(p) ==> parent(c) == Some(p);
    k := SearchAllSound(kids, parent, p, kids(p), visited + {p}, d - 1, x);
  }

  lemma {:induction false} SearchAllSound(kids: Children, parent: Parent, p: Text, cs: seq<Text>, visited: set<Text>, d: nat, x: Text)
    returns (k: nat)
    requires Indexed(kids, parent) && x in SearchAll(kids, cs, visited, d).items
    requires forall c :: c in cs ==> parent(c) == Some(p)
    ensures 0 < k <= d + 1 && Up(parent, x, k) == Some(p)
    decreases d, 1, |cs|
  {
    var init, c := cs[..|cs| - 1], cs[|cs| - 1];
    var before := SearchAll(kids, init, visited, d);
    assert c in cs && forall i :: i in init ==> i in cs;
    if x in before.items {
      k := SearchAllSound(kids, parent, p, init, visited, d, x);
    } else if x == c {
      k := 1;
      assert Up(parent, x, 0) == Some(x);
    } else {
      k := SearchSound(kids, parent, c, before.visited, d, x);
      k := k + 1;
    }
  }

  /** Whatever lies at most d levels below is listed. */
  lemma {:induction false} SearchComplete(kids: Children, parent: Parent, root: Text, p: Text, visited: set<Text>, d: nat, x: Text, k: nat)
    requires Indexed(kids, parent) && Entered(parent, root, p, visited) && p !in visited
    requires k <= d && Below(parent, root, x, p, k)
    ensures x in Search(kids, p, visited, d).items
    decreases d, 0, 0
  {
    var y := Up(parent, x, k - 1).value;
    assert y in kids(p);
    forall c | c in kids(p) ensures parent(c) == Some(p) && (c in visited + {p} ==> c == root) {
      assert parent(c) == Some(p);
    }
    SearchAllComplete(kids, parent, root, p, kids(p), visited + {p}, d - 1, x, k - 1, y);
  }

  lemma {:induction false} SearchAllComplete(kids: Children, parent: Parent, root: Text, p: Text, cs: seq<Text>, visited: set<Text>,
      d: nat, x: Text, k: nat, y: Text)
    requires Indexed(kids, parent) && Reached(parent, root, visited) && p in visited && NoRepeat(cs)
    requires forall c :: c in cs ==> parent(c) == Some(p) && (c in visited ==> c == root)
    requires y in cs && Up(parent, x, k) == Some(y) && k <= d && forall j :: 0 < j <= k ==> Up(parent, x, j) != Some(root)
    ensures x in SearchAll(kids, cs, visited, d).items
    decreases d, 1, |cs|
  {
    var init, c := cs[..|cs| - 1], cs[|cs| - 1];
    assert cs == init + [c];
    var before := SearchAll(kids, init, visited, d);
    SearchAllLists(kids, parent, root, p, init, visited, d);
    if y in init {
      SearchAllComplete(kids, parent, root, p, init, visited, d, x, k, y);
    } else if k == 0 {
      assert x == c;
    } else {
      assert y == c && y != root;
      assert c !in before.items;
      SearchComplete(kids, parent, root, c, before.visited, d, x, k);
    }
  }

  // ---- the cascade ----

  /** The descendants of the root within the bound: the items some number of levels up from which
      the root is first met. */
  predicate Descendant(parent: Parent, root: Text, x: Text, maxDepth: nat) {
    exists k :: 0 < k <= maxDepth && Below(parent, root, x, root, k)
  }

  lemma {:induction false} FirstMeeting(parent: Parent, root: Text, x: Text, k: nat) returns (m: nat)
    requires k > 0 && Up(parent, x, k) == Some(root)
    ensures 0 < m <= k && Below(parent, root, x, root, m)
  {
    if j :| 0 < j < k && Up(parent, x, j) == Some(root) {
      m := FirstMeeting(parent, root, x, j);
    } else {
      m := k;
    }
  }

  /** For every parent relation, cycles included: each descendant within the bound is listed
      exactly once, nothing else is, and an item comes after its parent unless that is the root. */
  lemma CascadeListsDescendants(kids: Children, parent: Parent, root: Text, maxDepth: nat)
    requires Indexed(kids, parent)
    ensures var items := Search(kids, root, {}, maxDepth).items;
      && (forall x :: x in items <==> Descendant(parent, root, x, maxDepth))
      && NoRepeat(items) && ParentsFirst(parent, items, root)
  {
    var items := Search(kids, root, {}, maxDepth).items;
    SearchLists(kids, parent, root, root, {}, maxDepth);
    forall x ensures x in items <==> Descendant(parent, root, x, maxDepth) {
      if x in items {
        var k := SearchSound(kids, parent, root, {}, maxDepth, x);
        var m := FirstMeeting(parent, root, x, k);
      }
      if Descendant(parent, root, x, maxDepth) {
        var k :| 0 < k <= maxDepth && Below(parent, root, x, root, k);
        SearchComplete(kids, parent, root, root, {}, maxDepth, x, k);
      }
    }
  }

  /** The root is listed among its own descendants exactly when it is on a cycle no longer than
      the bound; the cascade then archives it before its remaining descendants. */
  lemma RootListsItself(kids: Children, parent: Parent, root: Text, maxDepth: nat)
    requires Indexed(kids, parent)
    ensures root in Search(kids, root, {}, maxDepth).items
       <==> exists k :: 0 < k <= maxDepth && Up(parent, root, k) == Some(root)
  {
    CascadeListsDescendants(kids, parent, root, maxDepth);
    if exists k :: 0 < k <= maxDepth && Up(parent, root, k) == Some(root) {
      var k :| 0 < k <= maxDepth && Up(parent, root, k) == Some(root);
      var m := FirstMeeting(parent, root, root, k);
    }
  }

  predicate IsReverse(s: seq<Text>, t: seq<Text>) {
    |s| == |t| && forall i :: 0 <= i < |s| ==> s[i] == t[|t| - 1 - i]
  }

  /** The in-place reversal of archiveDescendants. */
  method ReverseInPlace(a: array<Text>)
    modifies a
    ensures IsReverse(a[..], old(a[..]))
  {
    var i, j := 0, a.Length - 1;
    while i < j
      invariant 0 <= i <= a.Length && j == a.Length - 1 - i
      invariant forall k :: 0 <= k < a.Length ==>
                  a[k] == if i <= k <= j then old(a[k]) else old(a[a.Length - 1 - k])
    {
      a[i], a[j] := a[j], a[i];
      i, j := i + 1, j - 1;
    }
  }

  /** In the reversed list every item comes before its parent, so a cascade over a root that is
      on no cycle within the depth bound archives every child before its parent. */
  lemma ChildrenBeforeParents(kids: Children, parent: Parent, root: Text, maxDepth: nat, order: seq<Text>)
    requires Indexed(kids, parent)
    requires IsReverse(order, Search(kids, root, {}, maxDepth).items)
    requires forall k :: 0 < k <= maxDepth ==> Up(parent, root, k) != Some(root)
    ensures root !in order
    ensures forall i, j :: 0 <= i < |order| && 0 <= j < |order| && parent(order[i]) == Some(order[j]) ==> i < j
  {
    var items := Search(kids, root, {}, maxDepth).items;
    CascadeListsDescendants(kids, parent, root, maxDepth);
    RootListsItself(kids, parent, root, maxDepth);
    assert root !in items;
    hide *;
    forall i | 0 <= i < |order| ensures order[i] != root {
      ReverseAt(order, items, i);
      assert items[|items| - 1 - i] in items;
    }
    forall i, j | 0 <= i < |order| && 0 <= j < |order| && parent(order[i]) == Some(order[j]) ensures i < j {
      ReverseAt(order, items, i);
      ReverseAt(order, items, j);
      ParentIsEarlier(parent, items, root, |items| - 1 - i, |items| - 1 - j);
    }
  }

  lemma ReverseAt(s: seq<Text>, t: seq<Text>, i: nat)
    requires IsReverse(s, t) && i < |s|
    ensures |s| == |t| && s[i] == t[|t| - 1 - i]
  {}

  lemma ParentIsEarlier(parent: Parent, items: seq<Text>, root: Text, i: nat, j: nat)
    requires NoRepeat(items) && ParentsFirst(parent, items, root) && root !in items
    requires i < |items| && j < |items| && parent(items[i]) == Some(items[j])
    ensures j < i
  {
    assert items[j] in items;
    var h :| 0 <= h < i && parent(items[i]) == Some(items[h]);
  }
}
