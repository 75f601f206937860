/** The XML element tree the deobfuscator works on (the PowerShell AST as
    exported to XML).  An element is a tag, an attribute dictionary, an
    optional text and an ordered list of children.  An element is located
    by its path of child indices from the root, which stands for the
    object identity the Python code uses as dictionary key. */
module ElementTree {
  import opened Python

  datatype Node = Node(tag: string, attrib: map<string, string>, text: Option<string>, children: seq<Node>)

  type Path = seq<nat>

  /** One step of `root.iter()`: where the element is, the element, and its
      parent (absent for the root). */
  datatype Visit = Visit(path: Path, node: Node, parent: Option<Node>)

  function Parent(p: Path): Path
    requires p != []
  {
    p[..|p| - 1]
  }

  function Last(p: Path): nat
    requires p != []
  {
    p[|p| - 1]
  }

  predicate ValidPath(n: Node, p: Path)
    decreases |p|
  {
    p == [] || (p[0] < |n.children| && ValidPath(n.children[p[0]], p[1..]))
  }

  function At(n: Node, p: Path): Node
    requires ValidPath(n, p)
    decreases |p|
  {
    if p == [] then n else At(n.children[p[0]], p[1..])
  }

  /** The tree with the element at `p` replaced by `m`. */
  function ReplaceAt(n: Node, p: Path, m: Node): (r: Node)
    requires ValidPath(n, p)
    decreases |p|
  {
    if p == [] then m
    else n.(children := n.children[p[0] := ReplaceAt(n.children[p[0]], p[1..], m)])
  }

  // ---------------------------------------------------------------- path facts

  lemma {:induction false} ValidPathCons(n: Node, i: nat, p: Path)
    requires i < |n.children|
    ensures ValidPath(n, [i] + p) <==> ValidPath(n.children[i], p)
    ensures ValidPath(n, [i] + p) ==> At(n, [i] + p) == At(n.children[i], p)
  {
    assert ([i] + p)[0] == i && ([i] + p)[1..] == p;
  }

  lemma {:induction false} ValidPrefix(n: Node, p: Path, k: nat)
    requires ValidPath(n, p) && k <= |p|
    ensures ValidPath(n, p[..k])
    decreases |p|
  {
    if k > 0 {
      ValidPrefix(n.children[p[0]], p[1..], k - 1);
      assert p[..k][1..] == p[1..][..k - 1];
    }
  }

  lemma ValidPrefixes(n: Node, p: Path)
    requires ValidPath(n, p)
    ensures forall k :: 0 <= k <= |p| ==> ValidPath(n, p[..k])
  {
    forall k | 0 <= k <= |p|
      ensures ValidPath(n, p[..k])
    {
      ValidPrefix(n, p, k);
    }
  }

  lemma {:induction false} ValidExtend(n: Node, p: Path, i: nat)
    requires ValidPath(n, p) && i < |At(n, p).children|
    ensures ValidPath(n, p + [i]) && At(n, p + [i]) == At(n, p).children[i]
    decreases |p|
  {
    if p != [] {
      ValidExtend(n.children[p[0]], p[1..], i);
      assert (p + [i])[1..] == p[1..] + [i];
    }
  }

  lemma ValidParent(n: Node, p: Path)
    requires ValidPath(n, p) && p != []
    ensures ValidPath(n, Parent(p))
    ensures Last(p) < |At(n, Parent(p)).children|
    ensures At(n, Parent(p)).children[Last(p)] == At(n, p)
  {
    ValidPrefix(n, p, |p| - 1);
    ParentStep(n, p);
  }

  lemma {:induction false} ParentStep(n: Node, p: Path)
    requires ValidPath(n, p) && p != []
    ensures ValidPath(n, Parent(p))
    ensures Last(p) < |At(n, Parent(p)).children|
    ensures At(n, Parent(p)).children[Last(p)] == At(n, p)
    decreases |p|
  {
    if |p| > 1 {
      ParentStep(n.children[p[0]], p[1..]);
      assert Parent(p)[1..] == Parent(p[1..]);
    }
  }

  // ---------------------------------------------------------------- edit facts

  /** After the replacement the new element is found at `p`. */
  lemma {:induction false} AtReplaced(n: Node, p: Path, m: Node)
    requires ValidPath(n, p)
    ensures ValidPath(ReplaceAt(n, p, m), p) && At(ReplaceAt(n, p, m), p) == m
    decreases |p|
  {
    if p != [] {
      AtReplaced(n.children[p[0]], p[1..], m);
    }
  }

  predicate IsPrefix(a: Path, b: Path)
  {
    |a| <= |b| && b[..|a|] == a
  }

  lemma PrefixCons(a: Path, b: Path)
    requires a != [] && b != [] && a[0] == b[0]
    ensures IsPrefix(a, b) <==> IsPrefix(a[1..], b[1..])
  {
    if IsPrefix(a[1..], b[1..]) {
      assert b[..|a|] == [b[0]] + b[1..][..|a| - 1];
      assert a == [a[0]] + a[1..];
    }
  }

  /** A replacement leaves every element that is neither on nor under `p`
      where it was. */
  lemma {:induction false} AtOther(n: Node, p: Path, m: Node, q: Path)
    requires ValidPath(n, p) && ValidPath(n, q)
    requires !IsPrefix(p, q) && !IsPrefix(q, p)
    ensures ValidPath(ReplaceAt(n, p, m), q) && At(ReplaceAt(n, p, m), q) == At(n, q)
    decreases |p|
  {
    assert p != [] && q != [];
    if p[0] != q[0] {
      var r := ReplaceAt(n, p, m);
      assert r.children[q[0]] == n.children[q[0]];
    } else {
      PrefixCons(p, q);
      PrefixCons(q, p);
      AtOther(n.children[p[0]], p[1..], m, q[1..]);
    }
  }

  /** Paths compose: `a + b` is `b` followed from the element at `a`. */
  lemma {:induction false} AtAppend(n: Node, a: Path, b: Path)
    requires ValidPath(n, a)
    ensures ValidPath(n, a + b) <==> ValidPath(At(n, a), b)
    ensures ValidPath(n, a + b) ==> At(n, a + b) == At(At(n, a), b)
    decreases |a|
  {
    if a == [] {
      assert a + b == b;
    } else {
      assert (a + b)[0] == a[0] && (a + b)[1..] == a[1..] + b;
      AtAppend(n.children[a[0]], a[1..], b);
    }
  }

  /** A replacement keeps every path that does not lead strictly below the
      replaced element. */
  lemma {:induction false} ValidAfterReplace(n: Node, p: Path, m: Node, q: Path)
    requires ValidPath(n, p) && ValidPath(n, q)
    requires !IsPrefix(p, q) || |q| <= |p|
    ensures ValidPath(ReplaceAt(n, p, m), q)
    decreases |p|
  {
    if q != [] && p != [] {
      if p[0] == q[0] {
        PrefixCons(p, q);
        ValidAfterReplace(n.children[p[0]], p[1..], m, q[1..]);
      }
    }
  }

  /** Replacing an element by one with the same children keeps every path,
      and every other element's own tag, attributes and text. */
  lemma {:induction false} ReplaceKeepingChildren(n: Node, p: Path, m: Node, q: Path)
    requires ValidPath(n, p) && m.children == At(n, p).children
    ensures ValidPath(ReplaceAt(n, p, m), q) <==> ValidPath(n, q)
    ensures ValidPath(n, q) && q != p ==> Head(At(ReplaceAt(n, p, m), q)) == Head(At(n, q))
    decreases |q|
  {
    if p != [] && q != [] && q[0] == p[0] {
      ReplaceKeepingChildren(n.children[p[0]], p[1..], m, q[1..]);
      if q[1..] == p[1..] {
        assert q == [q[0]] + q[1..] && p == [p[0]] + p[1..];
      }
    }
  }

  /** The tree with the child list of the element at `p` replaced. */
  function WithChildren(n: Node, p: Path, kids: seq<Node>): Node
    requires ValidPath(n, p)
  {
    ReplaceAt(n, p, At(n, p).(children := kids))
  }

  function RemoveAt<T>(s: seq<T>, j: nat): (r: seq<T>)
    requires j < |s|
    ensures |r| == |s| - 1
    ensures forall k :: 0 <= k < j ==> r[k] == s[k]
    ensures forall k :: j <= k < |r| ==> r[k] == s[k + 1]
  {
    s[..j] + s[j + 1..]
  }

  /** `list.insert(i, x)`: an index past the end appends. */
  function InsertClamped<T>(s: seq<T>, i: nat, x: T): (r: seq<T>)
    ensures |r| == |s| + 1
    ensures var k := if i <= |s| then i else |s|;
      r[k] == x && r[..k] == s[..k] && r[k + 1..] == s[k..]
  {
    var k := if i <= |s| then i else |s|;
    s[..k] + [x] + s[k..]
  }

  /** Removing the element at `j` and inserting `x` at the same index is
      replacing it. */
  lemma RemoveInsertSame<T>(s: seq<T>, j: nat, x: T)
    requires j < |s|
    ensures InsertClamped(RemoveAt(s, j), j, x) == s[j := x]
  {
    var r := InsertClamped(RemoveAt(s, j), j, x);
    assert forall k :: 0 <= k < |s| ==> r[k] == s[j := x][k];
  }

  /** The sequence in reverse order. */
  function Reversed<T>(s: seq<T>): (r: seq<T>)
    ensures |r| == |s| && forall k :: 0 <= k < |s| ==> r[k] == s[|s| - 1 - k]
  {
    seq(|s|, k requires 0 <= k < |s| => s[|s| - 1 - k])
  }

  lemma ReversedTwice<T>(s: seq<T>)
    ensures Reversed(Reversed(s)) == s
  {
  }

  // ---------------------------------------------------------------- counting

  /** An element without its children: tag, attributes and text. */
  function Head(n: Node): Node
  {
    n.(children := [])
  }

  /** Number of elements of the tree whose own tag, attributes and text
      satisfy `p`. */
  function Count(n: Node, p: Node -> bool): nat
    decreases n
  {
    (if p(Head(n)) then 1 else 0) + CountSeq(n.children, p)
  }

  function CountSeq(cs: seq<Node>, p: Node -> bool): nat
    decreases cs
  {
    if cs == [] then 0 else Count(cs[0], p) + CountSeq(cs[1..], p)
  }

  predicate Everything(n: Node)
  {
    true
  }

  /** Number of elements in the tree (what `sum(1 for _ in ast.iter())` counts). */
  function Size(n: Node): nat
  {
    Count(n, Everything)
  }

  lemma {:induction false} CountSeqAppend(a: seq<Node>, b: seq<Node>, p: Node -> bool)
    ensures CountSeq(a + b, p) == CountSeq(a, p) + CountSeq(b, p)
  {
    if a != [] {
      assert (a + b)[0] == a[0] && (a + b)[1..] == a[1..] + b;
      CountSeqAppend(a[1..], b, p);
    } else {
      assert a + b == b;
    }
  }

  lemma CountSeqSplit(cs: seq<Node>, j: nat, p: Node -> bool)
    requires j < |cs|
    ensures CountSeq(cs, p) == CountSeq(cs[..j], p) + Count(cs[j], p) + CountSeq(cs[j + 1..], p)
  {
    assert cs == cs[..j] + ([cs[j]] + cs[j + 1..]);
    CountSeqAppend(cs[..j], [cs[j]] + cs[j + 1..], p);
    assert ([cs[j]] + cs[j + 1..])[1..] == cs[j + 1..];
  }

  lemma CountSeqUpdate(cs: seq<Node>, j: nat, x: Node, p: Node -> bool)
    requires j < |cs|
    ensures CountSeq(cs[j := x], p) == CountSeq(cs, p) - Count(cs[j], p) + Count(x, p)
  {
    CountSeqSplit(cs, j, p);
    CountSeqSplit(cs[j := x], j, p);
    assert cs[j := x][..j] == cs[..j] && cs[j := x][j + 1..] == cs[j + 1..];
  }

  lemma CountSeqRemove(cs: seq<Node>, j: nat, p: Node -> bool)
    requires j < |cs|
    ensures CountSeq(RemoveAt(cs, j), p) == CountSeq(cs, p) - Count(cs[j], p)
  {
    CountSeqSplit(cs, j, p);
    CountSeqAppend(cs[..j], cs[j + 1..], p);
  }

  /** Reordering the children in reverse keeps every count. */
  lemma {:induction false} CountSeqReversed(cs: seq<Node>, p: Node -> bool)
    ensures CountSeq(Reversed(cs), p) == CountSeq(cs, p)
    decreases |cs|
  {
    if cs != [] {
      assert Reversed(cs) == Reversed(cs[1..]) + [cs[0]];
      CountSeqReversed(cs[1..], p);
      CountSeqSnoc(Reversed(cs[1..]), cs[0], p);
    }
  }

  lemma CountSeqSnoc(cs: seq<Node>, x: Node, p: Node -> bool)
    ensures CountSeq(cs + [x], p) == CountSeq(cs, p) + Count(x, p)
  {
    CountSeqAppend(cs, [x], p);
    assert [x][1..] == [];
  }

  /** Replacing an element changes the count by the difference of the two
      subtrees' counts. */
  lemma {:induction false} CountReplaceAt(n: Node, path: Path, m: Node, p: Node -> bool)
    requires ValidPath(n, path)
    ensures Count(ReplaceAt(n, path, m), p) == Count(n, p) - Count(At(n, path), p) + Count(m, p)
    ensures Count(At(n, path), p) <= Count(n, p)
    decreases |path|
  {
    if path != [] {
      CountReplaceAt(n.children[path[0]], path[1..], m, p);
      CountSeqUpdate(n.children, path[0], ReplaceAt(n.children[path[0]], path[1..], m), p);
      CountSeqSplit(n.children, path[0], p);
    }
  }

  lemma SizeReplaceAt(n: Node, path: Path, m: Node)
    requires ValidPath(n, path)
    ensures Size(ReplaceAt(n, path, m)) == Size(n) - Size(At(n, path)) + Size(m)
  {
    CountReplaceAt(n, path, m, Everything);
  }

  /** A child's subtree is strictly smaller than its parent's. */
  lemma ChildSmaller(n: Node, i: nat)
    requires i < |n.children|
    ensures Size(n.children[i]) < Size(n)
  {
    CountSeqSplit(n.children, i, Everything);
  }

  // ---------------------------------------------------------------- find and iter

  /** `n.find(tag)`: the first direct child with that tag. */
  function Find(n: Node, tag: string): (r: Option<Node>)
    ensures r.Some? <==> exists k :: 0 <= k < |n.children| && n.children[k].tag == tag
    ensures r.Some? ==> r.value.tag == tag && r.value in n.children
  {
    var k := FirstWithTag(n.children, tag);
    if k < |n.children| then Some(n.children[k]) else None
  }

  function FirstWithTag(cs: seq<Node>, tag: string): (k: nat)
    ensures k <= |cs|
    ensures forall j :: 0 <= j < k ==> cs[j].tag != tag
    ensures k < |cs| ==> cs[k].tag == tag
  {
    if cs == [] then 0 else if cs[0].tag == tag then 0 else 1 + FirstWithTag(cs[1..], tag)
  }

  /** `n.findall(tag)`: the direct children with that tag, in order. */
  function FindAll(n: Node, tag: string): (r: seq<Node>)
    ensures forall x :: x in r <==> x in n.children && x.tag == tag
  {
    Filter(n.children, tag)
  }

  function Filter(cs: seq<Node>, tag: string): (r: seq<Node>)
    ensures forall x :: x in r <==> x in cs && x.tag == tag
    ensures |r| <= |cs|
  {
    if cs == [] then []
    else if cs[0].tag == tag then [cs[0]] + Filter(cs[1..], tag)
    else Filter(cs[1..], tag)
  }

  /** The visits of a walk, each one true of the tree `n`. */
  predicate VisitsOf(n: Node, vs: seq<Visit>)
  {
    forall j :: 0 <= j < |vs| ==> Locates(n, vs[j])
  }

  predicate Locates(n: Node, v: Visit)
  {
    ValidPath(n, v.path) && At(n, v.path) == v.node
    && (v.path == [] <==> v.parent.None?)
    && (v.path != [] ==> ValidPath(n, Parent(v.path)) && v.parent == Some(At(n, Parent(v.path))))
  }

  /** `n.iter()`: every element of the tree in document (pre-)order. */
  function Walk(n: Node): (vs: seq<Visit>)
    ensures |vs| >= 1 && vs[0] == Visit([], n, None)
    ensures VisitsOf(n, vs)
    decreases n, 1
  {
    [Visit([], n, None)] + WalkKids(n, 0)
  }

  /** The walks of the children from index `i` on, as visits of `n`. */
  function WalkKids(n: Node, i: nat): (vs: seq<Visit>)
    requires i <= |n.children|
    ensures forall j :: 0 <= j < |vs| ==> Locates(n, vs[j]) && vs[j].path != [] && i <= vs[j].path[0]
    decreases n, 0, |n.children| - i
  {
    if i == |n.children| then []
    else
      var sub := Walk(n.children[i]);
      var here := Under(n, i, sub);
      here + WalkKids(n, i + 1)
  }

  /** The visits of child `i`'s walk, re-rooted at `n`. */
  function Under(n: Node, i: nat, sub: seq<Visit>): (vs: seq<Visit>)
    requires i < |n.children| && VisitsOf(n.children[i], sub)
    ensures |vs| == |sub|
    ensures forall j :: 0 <= j < |vs| ==> vs[j].path == [i] + sub[j].path && vs[j].node == sub[j].node
    ensures forall j :: 0 <= j < |vs| ==> Locates(n, vs[j])
  {
    var vs := seq(|sub|, j requires 0 <= j < |sub| => Visit([i] + sub[j].path, sub[j].node, if sub[j].path == [] then Some(n) else sub[j].parent));
    assert forall j :: 0 <= j < |vs| ==> Locates(n, vs[j]) by {
      forall j | 0 <= j < |vs|
        ensures Locates(n, vs[j])
      {
        var p := sub[j].path;
        ValidPathCons(n, i, p);
        if p != [] {
          ValidPathCons(n, i, Parent(p));
          assert Parent([i] + p) == [i] + Parent(p);
        } else {
          assert Parent([i] + p) == [];
        }
      }
    }
    vs
  }

  /** Every element of the tree is visited by the walk. */
  lemma {:induction false} WalkComplete(n: Node, p: Path)
    requires ValidPath(n, p)
    ensures exists j :: 0 <= j < |Walk(n)| && Walk(n)[j].path == p
    decreases n, 1
  {
    if p != [] {
      WalkKidsComplete(n, 0, p);
      var j :| 0 <= j < |WalkKids(n, 0)| && WalkKids(n, 0)[j].path == p;
      assert Walk(n)[j + 1] == WalkKids(n, 0)[j];
      assert 0 <= j + 1 < |Walk(n)| && Walk(n)[j + 1].path == p;
    } else {
      assert Walk(n)[0].path == p;
    }
  }

  lemma {:induction false} WalkKidsComplete(n: Node, i: nat, p: Path)
    requires i <= |n.children| && ValidPath(n, p) && p != [] && i <= p[0]
    ensures exists j :: 0 <= j < |WalkKids(n, i)| && WalkKids(n, i)[j].path == p
    decreases n, 0, |n.children| - i
  {
    if p[0] == i {
      WalkComplete(n.children[i], p[1..]);
      WalkKidsHere(n, i, p);
    } else {
      WalkKidsComplete(n, i + 1, p);
      WalkKidsLater(n, i, p, WalkKids(n, i + 1));
    }
  }

  /** A path into child `i` found by that child's walk is found by the
      walks of the children from `i` on. */
  lemma WalkKidsHere(n: Node, i: nat, p: Path)
    requires i < |n.children| && p != [] && p[0] == i
    requires exists j :: 0 <= j < |Walk(n.children[i])| && Walk(n.children[i])[j].path == p[1..]
    ensures exists j :: 0 <= j < |WalkKids(n, i)| && WalkKids(n, i)[j].path == p
  {
    var sub := Walk(n.children[i]);
    var here := Under(n, i, sub);
    var rest := WalkKids(n, i + 1);
    assert WalkKids(n, i) == here + rest;
    var j :| 0 <= j < |sub| && sub[j].path == p[1..];
    assert p == [i] + p[1..];
    assert here[j].path == p;
    assert (here + rest)[j] == here[j];
  }

  /** A path found by the walks of the children after `i` is found by the
      walks from `i` on. */
  lemma WalkKidsLater(n: Node, i: nat, p: Path, rest: seq<Visit>)
    requires i < |n.children| && rest == WalkKids(n, i + 1)
    requires exists j :: 0 <= j < |rest| && rest[j].path == p
    ensures exists j :: 0 <= j < |WalkKids(n, i)| && WalkKids(n, i)[j].path == p
  {
    var here := Under(n, i, Walk(n.children[i]));
    assert WalkKids(n, i) == here + rest;
    var j :| 0 <= j < |rest| && rest[j].path == p;
    assert (here + rest)[|here| + j] == rest[j];
  }

  /** The walk visits every element once: no path occurs twice. */
  lemma {:induction false} WalkDistinct(n: Node)
    ensures forall a, b :: 0 <= a < b < |Walk(n)| ==> Walk(n)[a].path != Walk(n)[b].path
    decreases n, 1
  {
    WalkKidsDistinct(n, 0);
  }

  lemma {:induction false} WalkKidsDistinct(n: Node, i: nat)
    requires i <= |n.children|
    ensures forall a, b :: 0 <= a < b < |WalkKids(n, i)| ==> WalkKids(n, i)[a].path != WalkKids(n, i)[b].path
    decreases n, 0, |n.children| - i
  {
    if i < |n.children| {
      var sub := Walk(n.children[i]);
      WalkDistinct(n.children[i]);
      WalkKidsDistinct(n, i + 1);
      var here := Under(n, i, sub);
      var rest := WalkKids(n, i + 1);
      var all := WalkKids(n, i);
      assert all == here + rest;
      forall a, b | 0 <= a < b < |all|
        ensures all[a].path != all[b].path
      {
        if b < |here| {
          assert all[a].path[1..] == sub[a].path && all[b].path[1..] == sub[b].path;
        } else if a < |here| {
          assert all[a].path[0] == i && all[b] == rest[b - |here|];
        } else {
          assert all[a] == rest[a - |here|] && all[b] == rest[b - |here|];
        }
      }
    }
  }

  /** The walk visits as many elements as the tree has. */
  lemma {:induction false} WalkSize(n: Node)
    ensures |Walk(n)| == Size(n)
    decreases n, 1
  {
    WalkKidsSize(n, 0);
    assert n.children[0..] == n.children;
  }

  lemma {:induction false} WalkKidsSize(n: Node, i: nat)
    requires i <= |n.children|
    ensures |WalkKids(n, i)| == CountSeq(n.children[i..], Everything)
    decreases n, 0, |n.children| - i
  {
    if i < |n.children| {
      WalkKidsSize(n, i + 1);
      WalkSize(n.children[i]);
      assert n.children[i..][1..] == n.children[i + 1..];
    }
  }

  /** The document the deobfuscator rewrites in place. */
  class Ast {
    var root: Node

    constructor (root: Node)
      ensures this.root == root
    {
      this.root := root;
    }
  }
}
