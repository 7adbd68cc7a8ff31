/**
 * The swap engine: moving a parsed fragment's nodes into the document and
 * removing the nodes they replace. A node is a `class` whose child list the
 * DOM operations rewrite in place; the HTML parser is abstracted away, so a
 * fragment is a node whose children are given.
 */
module Dom {

  /** A DOM node: element or not (text, comment), and its children in order. */
  class Node {
    const isElement: bool
    var childNodes: seq<Node>

    constructor(isElement: bool)
      ensures this.isElement == isElement && childNodes == []
    {
      this.isElement := isElement;
      childNodes := [];
    }
  }

  /** A node list never holds the same node twice. */
  predicate Distinct(s: seq<Node>)
  {
    forall i, j :: 0 <= i < j < |s| ==> s[i] != s[j]
  }

  /** No node is in both lists. */
  predicate Disjoint(a: seq<Node>, b: seq<Node>)
  {
    forall n :: n in a ==> n !in b
  }

  /** The index of the first occurrence of `ref` in `s`, or `|s|` when there is none (`ref` null included). */
  function Position(s: seq<Node>, ref: Node?): (i: nat)
    ensures i <= |s|
    ensures i < |s| ==> s[i] == ref
  {
    if |s| == 0 || s[0] == ref then 0 else 1 + Position(s[1..], ref)
  }

  /** Nothing before the position is `ref`; in particular the position is `|s|` exactly when `ref` is absent. */
  lemma {:induction false} PositionFirst(s: seq<Node>, ref: Node?)
    ensures forall j :: 0 <= j < Position(s, ref) ==> s[j] != ref
    ensures Position(s, ref) == |s| <==> ref !in s
    decreases |s|
  {
    if |s| > 0 && s[0] != ref {
      PositionFirst(s[1..], ref);
      assert forall j :: 1 <= j < |s| ==> s[j] == s[1..][j - 1];
      assert ref in s <==> ref in s[1..];
    }
  }

  /** Nodes ahead of the first occurrence shift it by their number. */
  lemma {:induction false} PositionAfter(a: seq<Node>, b: seq<Node>, ref: Node?)
    requires ref !in a
    ensures Position(a + b, ref) == |a| + Position(b, ref)
    decreases |a|
  {
    if |a| > 0 {
      assert (a + b)[0] == a[0] && a[0] != ref;
      assert (a + b)[1..] == a[1..] + b;
      assert ref !in a[1..];
      PositionAfter(a[1..], b, ref);
    } else {
      assert a + b == b;
    }
  }

  /** A node absent from the first `m` positions is absent from the prefix of length `m`. */
  lemma AbsentFromPrefix(s: seq<Node>, x: Node?, m: nat)
    requires m <= |s| && forall j :: 0 <= j < m ==> s[j] != x
    ensures x !in s[..m]
  {
    assert forall j :: 0 <= j < m ==> s[..m][j] == s[j];
  }

  /** A node found at index `i` in a list without repeats is first there. */
  lemma PositionOfDistinct(s: seq<Node>, i: nat)
    requires Distinct(s) && i < |s|
    ensures Position(s, s[i]) == i
  {
    PositionFirst(s, s[i]);
  }

  /** The node after `n` among `s`, `null` when `n` is last or absent. */
  function NextSibling(s: seq<Node>, n: Node): Node?
  {
    var p := Position(s, n);
    if p + 1 < |s| then s[p + 1] else null
  }

  /** `parent.insertBefore(child, ref)` for a child not yet in `parent`: before `ref`, or last when `ref` is null. */
  method InsertChild(parent: Node, child: Node, ref: Node?)
    requires ref == null || ref in parent.childNodes
    modifies parent
    ensures var s := old(parent.childNodes); var i := Position(s, ref);
      parent.childNodes == s[..i] + [child] + s[i..]
  {
    var i := Position(parent.childNodes, ref);
    parent.childNodes := parent.childNodes[..i] + [child] + parent.childNodes[i..];
  }

  /** `parent.removeChild(child)` (and `child.remove()`): the child leaves, the rest keep their order. */
  method RemoveChild(parent: Node, child: Node)
    requires child in parent.childNodes
    modifies parent
    ensures var s := old(parent.childNodes); var p := Position(s, child);
      p < |s| && parent.childNodes == s[..p] + s[p + 1..]
  {
    PositionFirst(parent.childNodes, child);
    var p := Position(parent.childNodes, child);
    parent.childNodes := parent.childNodes[..p] + parent.childNodes[p + 1..];
  }

  /** One `onProcess(child)` call, with the parent's children at that moment. */
  datatype Callback = Callback(node: Node, childrenAtCall: seq<Node>)

  /**
   * The callbacks made while the first `k` fragment nodes move in between
   * `pre` and `post`: one per element node, right after it moved.
   */
  function Calls(pre: seq<Node>, frag: seq<Node>, post: seq<Node>, k: nat): seq<Callback>
    requires k <= |frag|
  {
    if k == 0 then []
    else
      Calls(pre, frag, post, k - 1) +
      (if frag[k - 1].isElement then [Callback(frag[k - 1], pre + frag[..k] + post)] else [])
  }

  /** The element nodes of `s`, in order. */
  function Elements(s: seq<Node>): seq<Node>
  {
    if |s| == 0 then [] else Elements(s[..|s| - 1]) + (if s[|s| - 1].isElement then [s[|s| - 1]] else [])
  }

  /**
   * The callbacks are made for exactly the element nodes, in insertion
   * order, and each one sees the parent's old children still attached
   * together with the node it is made for.
   */
  lemma {:induction false} CallsShape(pre: seq<Node>, frag: seq<Node>, post: seq<Node>, k: nat)
    requires k <= |frag|
    ensures var c := Calls(pre, frag, post, k);
      |c| == |Elements(frag[..k])| &&
      forall j :: 0 <= j < |c| ==>
        c[j].node == Elements(frag[..k])[j] && c[j].node in c[j].childrenAtCall &&
        forall n :: n in pre || n in post ==> n in c[j].childrenAtCall
  {
    if k > 0 {
      CallsShape(pre, frag, post, k - 1);
      assert frag[..k][..k - 1] == frag[..k - 1];
      var x := frag[k - 1];
      if x.isElement {
        var c := Calls(pre, frag, post, k);
        var last := c[|c| - 1];
        assert last == Callback(x, pre + frag[..k] + post);
        assert frag[..k][k - 1] == x;
        assert x in last.childrenAtCall;
      }
    }
  }

  /**
   * Moving fragment node `k` in front of `ref`, which sits right after the
   * nodes already moved (or is null), extends the moved run by one.
   */
  lemma InsertStep(pre: seq<Node>, f: seq<Node>, post: seq<Node>, k: nat, ref: Node?)
    requires k < |f|
    requires ref !in pre && ref !in f
    requires if ref == null then post == [] else |post| > 0 && post[0] == ref
    ensures var c := pre + f[..k] + post; var i := Position(c, ref);
      i == |pre| + k && c[..i] + [f[k]] + c[i..] == pre + f[..k + 1] + post
  {
    var c := pre + f[..k] + post;
    assert ref !in pre + f[..k];
    PositionAfter(pre + f[..k], post, ref);
    assert c[..|pre| + k] == pre + f[..k] && c[|pre| + k..] == post;
    assert f[..k + 1] == f[..k] + [f[k]];
  }

  /** Cutting the children at the reference node: `ref` is not before the cut, and starts the rest unless it is null. */
  lemma SplitAtRef(s: seq<Node>, f: seq<Node>, ref: Node?)
    requires ref == null || ref in s
    requires Disjoint(f, s)
    ensures var i := Position(s, ref);
      ref !in s[..i] && ref !in f && s[..i] + f[..0] + s[i..] == s &&
      (if ref == null then s[i..] == [] else |s[i..]| > 0 && s[i..][0] == ref)
  {
    var i := Position(s, ref);
    PositionFirst(s, ref);
    AbsentFromPrefix(s, ref, i);
    if ref != null {
      assert ref in s;
      assert ref !in f;
      assert s[i..][0] == s[i];
    }
    assert f[..0] == [];
    assert s[..i] + s[i..] == s;
  }

  /**
   * `insertBefore(parent, insertBeforeNode, fragment, onProcess)`: drains
   * the fragment, moving its nodes in order to just before `ref` (to the
   * end when `ref` is null), calling back on every element node as it lands.
   */
  method InsertFragmentBefore(parent: Node, ref: Node?, fragment: Node) returns (calls: seq<Callback>)
    requires parent != fragment
    requires ref == null || ref in parent.childNodes
    requires Disjoint(fragment.childNodes, parent.childNodes)
    modifies parent, fragment
    ensures fragment.childNodes == []
    ensures var s := old(parent.childNodes); var i := Position(s, ref);
      parent.childNodes == s[..i] + old(fragment.childNodes) + s[i..] &&
      calls == Calls(s[..i], old(fragment.childNodes), s[i..], |old(fragment.childNodes)|)
  {
    ghost var s := parent.childNodes;
    ghost var f := fragment.childNodes;
    ghost var i := Position(s, ref);
    ghost var pre, post := s[..i], s[i..];
    SplitAtRef(s, f, ref);
    ghost var k := 0;
    calls := [];
    while |fragment.childNodes| > 0
      invariant 0 <= k <= |f|
      invariant fragment.childNodes == f[k..]
      invariant parent.childNodes == pre + f[..k] + post
      invariant calls == Calls(pre, f, post, k)
      decreases |fragment.childNodes|
    {
      var call := MoveFirstChild(parent, fragment, ref, pre, f, post, k);
      calls := calls + call;
      k := k + 1;
    }
    assert f[..k] == f;
  }

  /**
   * One turn of `insertBefore`'s loop: `parent.insertBefore(fragment.firstChild, ref)`
   * moves the fragment's first node into the parent just before `ref`, and
   * an element node gets its `onProcess` call.
   */
  method MoveFirstChild(parent: Node, fragment: Node, ref: Node?,
                        ghost pre: seq<Node>, ghost f: seq<Node>, ghost post: seq<Node>, ghost k: nat)
    returns (call: seq<Callback>)
    requires parent != fragment && k < |f|
    requires ref !in pre && ref !in f
    requires if ref == null then post == [] else |post| > 0 && post[0] == ref
    requires fragment.childNodes == f[k..] && parent.childNodes == pre + f[..k] + post
    modifies parent, fragment
    ensures fragment.childNodes == f[k + 1..] && parent.childNodes == pre + f[..k + 1] + post
    ensures Calls(pre, f, post, k) + call == Calls(pre, f, post, k + 1)
  {
    var child := fragment.childNodes[0];
    InsertStep(pre, f, post, k, ref);
    InsertChild(parent, child, ref);
    fragment.childNodes := fragment.childNodes[1..];
    if child.isElement {
      call := [Callback(child, parent.childNodes)];
    } else {
      call := [];
    }
  }

  /** In `f + [x] + rest` with `x` not among `f`, `x` sits at `|f|`. */
  lemma SiblingPosition(f: seq<Node>, x: Node, rest: seq<Node>)
    requires x !in f
    ensures Position(f + [x] + rest, x) == |f|
  {
    PositionAfter(f, [x] + rest, x);
    assert f + [x] + rest == f + ([x] + rest);
  }

  /** ... and is followed by `rest`'s first node, or by nothing. */
  lemma SiblingOf(f: seq<Node>, x: Node, rest: seq<Node>)
    requires x !in f
    ensures NextSibling(f + [x] + rest, x) == (if |rest| > 0 then rest[0] else null)
  {
    var c := f + [x] + rest;
    SiblingPosition(f, x, rest);
    assert |c| == |f| + 1 + |rest|;
    if |rest| > 0 {
      assert c[|f| + 1] == rest[0];
    }
  }

  /** Removing the node after `x` from `f + [x] + rest` leaves `f + [x] + rest[1..]`. */
  lemma RemoveFollower(f: seq<Node>, x: Node, rest: seq<Node>)
    requires |rest| > 0 && rest[0] !in f && rest[0] != x
    ensures var c := f + [x] + rest; var p := Position(c, rest[0]);
      p == |f| + 1 && c[..p] + c[p + 1..] == f + [x] + rest[1..]
  {
    var c := f + [x] + rest;
    assert rest[0] !in f + [x];
    PositionAfter(f + [x], rest, rest[0]);
    assert c[..|f| + 1] == f + [x] && c[|f| + 2..] == rest[1..];
  }

  /** Removing `x` from `a + [x] + b`, where `a` does not hold `x`, leaves `a + b`. */
  lemma RemoveFirstOf(a: seq<Node>, x: Node, b: seq<Node>)
    requires x !in a
    ensures var c := a + [x] + b; Position(c, x) == |a| && c[..|a|] + c[|a| + 1..] == a + b
  {
    PositionAfter(a, [x] + b, x);
    assert a + [x] + b == a + ([x] + b);
    var c := a + [x] + b;
    assert c[..|a|] == a && c[|a| + 1..] == b;
  }

  /**
   * `swapInnerHTML(target, html, onProcess)` with `html` parsed to
   * `fragment`: the fragment's nodes go in front of the old first child,
   * then the old children are removed, the followers of the old first
   * child first and that child last.
   */
  method SwapInnerHtml(target: Node, fragment: Node) returns (calls: seq<Callback>)
    requires target != fragment
    requires Distinct(target.childNodes)
    requires Disjoint(fragment.childNodes, target.childNodes)
    modifies target, fragment
    ensures target.childNodes == old(fragment.childNodes) && fragment.childNodes == []
    ensures calls == Calls([], old(fragment.childNodes), old(target.childNodes), |old(fragment.childNodes)|)
  {
    ghost var s := target.childNodes;
    ghost var f := fragment.childNodes;
    var firstChild: Node? := if |target.childNodes| > 0 then target.childNodes[0] else null;
    assert Position(s, firstChild) == 0;
    calls := InsertFragmentBefore(target, firstChild, fragment);
    assert s[..0] == [] && s[0..] == s;
    assert target.childNodes == f + s;
    assert calls == Calls([], f, s, |f|);
    if firstChild != null {
      assert s == [s[0]] + s[1..];
      RemoveOldChildren(target, firstChild, f, s);
    } else {
      assert s == [];
    }
  }

  /**
   * The removal half of `swapInnerHTML`: while the old first child `x` has
   * a next sibling, that sibling is removed; then `x` itself goes.
   */
  method RemoveOldChildren(target: Node, x: Node, ghost f: seq<Node>, ghost s: seq<Node>)
    requires |s| > 0 && s[0] == x && Distinct(s) && Disjoint(f, s)
    requires target.childNodes == f + s
    modifies target
    ensures target.childNodes == f
  {
    assert x !in f;
    assert target.childNodes == f + [x] + s[1..];
    ghost var j := 1;
    SiblingPosition(f, x, s[j..]);
    SiblingOf(f, x, s[j..]);
    while NextSibling(target.childNodes, x) != null
      invariant 1 <= j <= |s|
      invariant target.childNodes == f + [x] + s[j..]
      invariant NextSibling(target.childNodes, x) == (if j < |s| then s[j] else null)
      decreases |s| - j
    {
      RemoveNextSibling(target, x, f, s, j);
      j := j + 1;
    }
    assert s[j..] == [];
    RemoveChild(target, x);
    RemoveFirstOf(f, x, []);
  }

  /** One turn of the removal loop: `x.nextSibling.remove()`. */
  method RemoveNextSibling(target: Node, x: Node, ghost f: seq<Node>, ghost s: seq<Node>, ghost j: nat)
    requires 1 <= j < |s| && s[0] == x && Distinct(s) && Disjoint(f, s)
    requires target.childNodes == f + [x] + s[j..]
    requires NextSibling(target.childNodes, x) == s[j]
    modifies target
    ensures target.childNodes == f + [x] + s[j + 1..]
    ensures NextSibling(target.childNodes, x) == (if j + 1 < |s| then s[j + 1] else null)
  {
    var next := NextSibling(target.childNodes, x);
    assert s[j..][0] == s[j] && s[j..][1..] == s[j + 1..];
    assert s[j] !in f && s[j] != s[0];
    RemoveFollower(f, x, s[j..]);
    RemoveChild(target, next);
    SiblingOf(f, x, s[j + 1..]);
  }

  /**
   * The children after `swapOuterHTML` as written: the fragment goes in
   * before the target's previous sibling, or after the last child when the
   * target is first; then the target is removed.
   */
  function OuterSwappedAsWritten(s: seq<Node>, t: nat, f: seq<Node>): (r: seq<Node>)
    requires t < |s|
    ensures |r| == |s| - 1 + |f|
    ensures t == 0 ==> forall i :: 0 <= i < |f| ==> r[|s| - 1 + i] == f[i]
    ensures t > 0 ==> forall i :: 0 <= i < |f| ==> r[t - 1 + i] == f[i]
  {
    if t == 0 then s[1..] + f else s[..t - 1] + f + [s[t - 1]] + s[t + 1..]
  }

  /** The children after replacing the target by the fragment in place. */
  function OuterSwapped(s: seq<Node>, t: nat, f: seq<Node>): (r: seq<Node>)
    requires t < |s|
    ensures |r| == |s| - 1 + |f|
    ensures forall i :: 0 <= i < |f| ==> r[t + i] == f[i]
    ensures forall i :: 0 <= i < |s| && i != t ==> r[if i < t then i else i - 1 + |f|] == s[i]
  {
    s[..t] + f + s[t + 1..]
  }

  /**
   * The as-written swap agrees with the in-place one exactly when the
   * fragment is empty or the target is the only child: otherwise the new
   * nodes land one place too early, or at the end when the target is first.
   */
  lemma OuterSwapMisplaces(s: seq<Node>, t: nat, f: seq<Node>)
    requires t < |s| && Disjoint(f, s)
    ensures OuterSwappedAsWritten(s, t, f) == OuterSwapped(s, t, f) <==> f == [] || |s| == 1
  {
    var w, o := OuterSwappedAsWritten(s, t, f), OuterSwapped(s, t, f);
    if f == [] {
      if t == 0 {
        assert w == s[1..] && o == s[1..];
      } else {
        assert s[..t] == s[..t - 1] + [s[t - 1]];
      }
    } else if |s| == 1 {
      assert s[1..] == [] && s[..0] == [];
    } else if t == 0 {
      assert w[0] == s[1] && o[0] == f[0] && f[0] !in s;
    } else {
      assert w[t - 1] == f[0] && o[t - 1] == s[t - 1] && f[0] !in s;
    }
  }

  /** With an empty fragment both swaps only take the target out. */
  lemma OuterSwapEmptyFragment(s: seq<Node>, t: nat)
    requires t < |s|
    ensures OuterSwappedAsWritten(s, t, []) == s[..t] + s[t + 1..]
    ensures OuterSwapped(s, t, []) == s[..t] + s[t + 1..]
  {
    if t > 0 {
      assert s[..t] == s[..t - 1] + [s[t - 1]];
    }
  }

  /**
   * The input that shows the misplacement: the target after a sibling `a`
   * ends up with the new node `x` before `a`, and a target before a sibling
   * `b` ends up with `x` after `b`; in place, `x` would stand where the
   * target stood.
   */
  lemma OuterSwapCounterexample(a: Node, target: Node, b: Node, x: Node)
    ensures OuterSwappedAsWritten([a, target], 1, [x]) == [x, a]
    ensures OuterSwapped([a, target], 1, [x]) == [a, x]
    ensures OuterSwappedAsWritten([target, b], 0, [x]) == [b, x]
    ensures OuterSwapped([target, b], 0, [x]) == [x, b]
  {
    assert [a, target][..0] == [] && [a, target][2..] == [] && [a, target][..1] == [a];
    assert [target, b][1..] == [b] && [target, b][..0] == [];
  }

  /**
   * Both swaps keep every other child, the same nodes and not copies:
   * the target leaves and the fragment's nodes arrive.
   */
  lemma OuterSwapKeepsNodes(s: seq<Node>, t: nat, f: seq<Node>)
    requires t < |s|
    ensures multiset(OuterSwappedAsWritten(s, t, f)) == multiset(s) - multiset{s[t]} + multiset(f)
    ensures multiset(OuterSwapped(s, t, f)) == multiset(s) - multiset{s[t]} + multiset(f)
  {
    assert s == s[..t] + [s[t]] + s[t + 1..];
    assert multiset(s) == multiset(s[..t]) + multiset{s[t]} + multiset(s[t + 1..]);
    if t > 0 {
      assert s[..t] == s[..t - 1] + [s[t - 1]];
    }
  }

  /**
   * `swapOuterHTML(target, html, onProcess)` as written, with `html` parsed
   * to `fragment` and the target's parent `parent`.
   */
  method SwapOuterHtmlAsWritten(parent: Node, target: Node, fragment: Node) returns (calls: seq<Callback>)
    requires parent != fragment
    requires target in parent.childNodes && Distinct(parent.childNodes)
    requires Disjoint(fragment.childNodes, parent.childNodes)
    modifies parent, fragment
    ensures fragment.childNodes == []
    ensures var s := old(parent.childNodes); var t := Position(s, target);
      t < |s| && parent.childNodes == OuterSwappedAsWritten(s, t, old(fragment.childNodes)) &&
      calls == (if t == 0 then Calls(s, old(fragment.childNodes), [], |old(fragment.childNodes)|)
                else Calls(s[..t - 1], old(fragment.childNodes), s[t - 1..], |old(fragment.childNodes)|))
  {
    ghost var s := parent.childNodes;
    ghost var f := fragment.childNodes;
    PositionFirst(s, target);
    var t := Position(parent.childNodes, target);
    var previousSibling: Node? := if t == 0 then null else parent.childNodes[t - 1];
    if t == 0 {
      AtEnd(s);
    } else {
      PositionOfDistinct(s, t - 1);
    }
    calls := InsertFragmentBefore(parent, previousSibling, fragment);
    if t == 0 {
      RemoveFirstAfterAppend(s, f);
    } else {
      PositionOfDistinct(s, t);
      RemoveAfterSibling(s, f, t);
    }
    RemoveChild(parent, target);
  }

  /** A null reference node sits past the end, so inserting before it appends. */
  lemma AtEnd(s: seq<Node>)
    ensures Position(s, null) == |s| && s[..|s|] == s && s[|s|..] == []
  {
    PositionFirst(s, null);
  }

  /** Appending `f` to `s` and then removing the first child leaves `s[1..] + f`. */
  lemma RemoveFirstAfterAppend(s: seq<Node>, f: seq<Node>)
    requires |s| > 0 && Disjoint(f, s)
    ensures var c := s[..|s|] + f + s[|s|..]; Position(c, s[0]) == 0 && c[..0] + c[1..] == OuterSwappedAsWritten(s, 0, f)
  {
    var c := s[..|s|] + f + s[|s|..];
    assert s[..|s|] == s && s[|s|..] == [];
    assert c == [s[0]] + (s[1..] + f);
  }

  /**
   * Inserting `f` before the `t-1`-th child and then removing the `t`-th
   * (the target) leaves `s[..t-1] + f + [s[t-1]] + s[t+1..]`.
   */
  lemma RemoveAfterSibling(s: seq<Node>, f: seq<Node>, t: nat)
    requires 0 < t < |s| && Disjoint(f, s)
    requires Position(s, s[t]) == t
    ensures var c := s[..t - 1] + f + s[t - 1..]; var a := s[..t - 1] + f + [s[t - 1]];
      Position(c, s[t]) == |a| && c[..|a|] + c[|a| + 1..] == OuterSwappedAsWritten(s, t, f)
  {
    var x := s[t];
    var a := s[..t - 1] + f + [s[t - 1]];
    PositionFirst(s, x);
    assert x !in f;
    AbsentFromPrefix(s, x, t);
    assert s[..t] == s[..t - 1] + [s[t - 1]];
    assert x !in s[..t - 1] + [s[t - 1]];
    assert x !in a;
    assert s[t - 1..] == [s[t - 1]] + [x] + s[t + 1..];
    assert s[..t - 1] + f + s[t - 1..] == a + [x] + s[t + 1..];
    RemoveFirstOf(a, x, s[t + 1..]);
  }

  /**
   * `swapOuterHTML` with the insertion point it evidently intends: the
   * fragment's nodes go in just before the target, then the target is
   * removed, so the fragment takes the target's place.
   */
  method SwapOuterHtml(parent: Node, target: Node, fragment: Node) returns (calls: seq<Callback>)
    requires parent != fragment
    requires target in parent.childNodes && Distinct(parent.childNodes)
    requires Disjoint(fragment.childNodes, parent.childNodes)
    modifies parent, fragment
    ensures fragment.childNodes == []
    ensures var s := old(parent.childNodes); var t := Position(s, target);
      t < |s| && parent.childNodes == OuterSwapped(s, t, old(fragment.childNodes)) &&
      calls == Calls(s[..t], old(fragment.childNodes), s[t..], |old(fragment.childNodes)|)
  {
    ghost var s := parent.childNodes;
    ghost var f := fragment.childNodes;
    ghost var t := Position(parent.childNodes, target);
    PositionFirst(s, target);
    calls := InsertFragmentBefore(parent, target, fragment);
    assert target !in f && target !in s[..t];
    PositionAfter(s[..t] + f, s[t..], target);
    RemoveChild(parent, target);
    assert s[t..][1..] == s[t + 1..];
  }
}
