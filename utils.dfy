/**
 * The helpers of the utility module (dist/utils/index.d.ts): array splicing, DOM node
 * insertion and removal, hyphen-to-camelCase conversion, callback composition and the
 * merge of injected handlers with the caller's options.
 *
 * Only the declarations and doc comments of that module are part of this model. Array
 * indices follow Array.prototype.splice, the primitive the helpers' names and signatures
 * describe; camelize follows the usual `/-(\w)/g` replacement.
 */
module Utils {
  import opened Wrappers
  import opened JsValues

  // ---------------------------------------------------------------------------
  // Arrays
  // ---------------------------------------------------------------------------

  /** Where Array.prototype.splice starts for a given index: negative counts from the end, clamped to [0, len]. */
  function SpliceStart(len: nat, index: int): (k: nat)
    ensures k <= len
    ensures 0 <= index <= len ==> k == index
    ensures index > len ==> k == len
    ensures index < 0 && 0 <= len as int + index ==> k == len as int + index
    ensures len as int + index < 0 ==> k == 0
  {
    if index < 0 then (if len + index < 0 then 0 else len + index)
    else if index > len then len
    else index
  }

  /** `s` after `splice(index, 0, x)`. */
  function Inserted<T>(s: seq<T>, index: int, x: T): (r: seq<T>)
    ensures |r| == |s| + 1
    ensures var k := SpliceStart(|s|, index);
      && r[k] == x
      && (forall i :: 0 <= i < k ==> r[i] == s[i])
      && (forall i :: k < i < |r| ==> r[i] == s[i - 1])
  {
    var k := SpliceStart(|s|, index);
    s[..k] + [x] + s[k..]
  }

  /** `s` after `splice(index, 1)`: the element at the normalised index leaves, the rest keep their order. */
  function Removed<T>(s: seq<T>, index: int): (r: seq<T>)
    ensures var k := SpliceStart(|s|, index);
      if k < |s| then
        && |r| == |s| - 1
        && (forall i :: 0 <= i < k ==> r[i] == s[i])
        && (forall i :: k <= i < |r| ==> r[i] == s[i + 1])
      else r == s
  {
    var k := SpliceStart(|s|, index);
    if k < |s| then s[..k] + s[k + 1..] else s
  }

  /** Inserting adds exactly the inserted element to the multiset of elements. */
  lemma InsertedElements<T>(s: seq<T>, index: int, x: T)
    ensures multiset(Inserted(s, index, x)) == multiset(s) + multiset{x}
  {
    var k := SpliceStart(|s|, index);
    assert s == s[..k] + s[k..];
  }

  /** Removing takes exactly the removed element out of the multiset of elements. */
  lemma RemovedElements<T>(s: seq<T>, index: int)
    requires 0 <= index < |s|
    ensures multiset(Removed(s, index)) + multiset{s[index]} == multiset(s)
  {
    assert s == s[..index] + [s[index]] + s[index + 1..];
  }

  /** Removing what was just inserted at an index gives the array back. */
  lemma InsertedThenRemoved<T>(s: seq<T>, index: int, x: T)
    requires 0 <= index <= |s|
    ensures Removed(Inserted(s, index, x), index) == s
  {
    var r := Inserted(s, index, x);
    assert SpliceStart(|r|, index) == index;
    assert r[..index] + r[index + 1..] == s[..index] + s[index..];
    assert s == s[..index] + s[index..];
  }

  /** Inserting back what was just removed from an index gives the array back. */
  lemma RemovedThenInserted<T>(s: seq<T>, index: int)
    requires 0 <= index < |s|
    ensures Inserted(Removed(s, index), index, s[index]) == s
  {
    var u := Removed(s, index);
    assert SpliceStart(|u|, index) == index;
    assert s == s[..index] + [s[index]] + s[index + 1..];
  }

  /** moveArrayElement: remove the element at `from` and reinsert it at `to` when both index the array. */
  function Moved<T>(s: seq<T>, from: int, to: int): (r: seq<T>)
    ensures |r| == |s|
    ensures !(0 <= from < |s| && 0 <= to < |s|) ==> r == s
  {
    if 0 <= from < |s| && 0 <= to < |s| then Inserted(Removed(s, from), to, s[from]) else s
  }

  /** Which index of the original array ends up at index `i` after a move from `from` to `to`. */
  function MovedSource(from: int, to: int, i: int): int {
    if i == to then from
    else
      var j := if i < to then i else i - 1;   // index in the array with the element taken out
      if j < from then j else j + 1
  }

  lemma MovedAt<T>(s: seq<T>, from: int, to: int)
    requires 0 <= from < |s| && 0 <= to < |s|
    ensures |Moved(s, from, to)| == |s|
    ensures forall i :: 0 <= i < |s| ==> 0 <= MovedSource(from, to, i) < |s| && Moved(s, from, to)[i] == s[MovedSource(from, to, i)]
  {
    var u := Removed(s, from);
    assert SpliceStart(|s|, from) == from;
    assert SpliceStart(|u|, to) == to;
  }

  /**
   * A move keeps the length and the elements, lands the moved element at `to`, leaves
   * everything outside the two indices in place and shifts what lies between by one.
   */
  lemma MovedSpec<T>(s: seq<T>, from: int, to: int)
    requires 0 <= from < |s| && 0 <= to < |s|
    ensures var r := Moved(s, from, to);
      && |r| == |s|
      && multiset(r) == multiset(s)
      && r[to] == s[from]
      && (forall i :: 0 <= i < |s| && i < from && i < to ==> r[i] == s[i])
      && (forall i :: 0 <= i < |s| && i > from && i > to ==> r[i] == s[i])
      && (forall i :: from <= i < to ==> r[i] == s[i + 1])
      && (forall i :: to < i <= from ==> r[i] == s[i - 1])
  {
    MovedKeepsElements(s, from, to);
    MovedAt(s, from, to);
    var r := Moved(s, from, to);
    assert r[to] == s[MovedSource(from, to, to)];
    forall i | 0 <= i < |s| && i < from && i < to ensures r[i] == s[i] {
      assert MovedSource(from, to, i) == i;
    }
    forall i | 0 <= i < |s| && i > from && i > to ensures r[i] == s[i] {
      assert MovedSource(from, to, i) == i;
    }
    forall i | from <= i < to ensures r[i] == s[i + 1] {
      assert MovedSource(from, to, i) == i + 1;
    }
    forall i | to < i <= from ensures r[i] == s[i - 1] {
      assert MovedSource(from, to, i) == i - 1;
    }
  }

  /** A move neither adds nor loses an element. */
  lemma MovedKeepsElements<T>(s: seq<T>, from: int, to: int)
    ensures multiset(Moved(s, from, to)) == multiset(s)
  {
    if 0 <= from < |s| && 0 <= to < |s| {
      assert SpliceStart(|s|, from) == from;
      RemovedElements(s, from);
      InsertedElements(Removed(s, from), to, s[from]);
    }
  }

  /** Moving back from `to` to `from` undoes a move. */
  lemma MovedInverse<T>(s: seq<T>, from: int, to: int)
    requires 0 <= from < |s| && 0 <= to < |s|
    ensures Moved(Moved(s, from, to), to, from) == s
  {
    var r := Moved(s, from, to);
    MovedAt(s, from, to);
    MovedAt(r, to, from);
    var b := Moved(r, to, from);
    forall i | 0 <= i < |s| ensures b[i] == s[i] {
      MovedSourceInverse(from, to, i);
    }
  }

  /** The index maps of a move and of the move back compose to the identity. */
  lemma MovedSourceInverse(from: int, to: int, i: int)
    ensures MovedSource(from, to, MovedSource(to, from, i)) == i
  {
  }

  /** A JavaScript array: an object whose contents are changed in place. */
  class JsArray<T> {
    var elems: seq<T>

    constructor (elems: seq<T>)
      ensures this.elems == elems
    {
      this.elems := elems;
    }
  }

  /**
   * insertElement: inserts `element` into the array at `index`; with no array (not an
   * array, or undefined) nothing happens and the result is undefined.
   */
  method InsertElement<T>(a: JsArray?<T>, index: int, element: T) returns (r: Option<seq<T>>)
    modifies a
    ensures a == null ==> r == None
    ensures a != null ==> r == Some([]) && a.elems == Inserted(old(a.elems), index, element)
  {
    if a == null {
      r := None;
    } else {
      a.elems := Inserted(a.elems, index, element);
      r := Some([]);
    }
  }

  /**
   * removeElement: removes the element at `index` from the array and returns what was
   * removed; with no array nothing happens and the result is undefined.
   */
  method RemoveElement<T>(a: JsArray?<T>, index: int) returns (r: Option<seq<T>>)
    modifies a
    ensures a == null ==> r == None
    ensures a != null ==>
      var s, k := old(a.elems), SpliceStart(|old(a.elems)|, index);
      a.elems == Removed(s, index) && r == Some(if k < |s| then [s[k]] else [])
  {
    if a == null {
      r := None;
    } else {
      var k := SpliceStart(|a.elems|, index);
      r := Some(if k < |a.elems| then [a.elems[k]] else []);
      a.elems := Removed(a.elems, index);
    }
  }

  /** moveArrayElement: moves an element within the array in place and returns the same array. */
  method MoveArrayElement<T>(a: JsArray<T>, from: int, to: int) returns (r: JsArray<T>)
    modifies a
    ensures r == a && a.elems == Moved(old(a.elems), from, to)
  {
    a.elems := Moved(a.elems, from, to);
    r := a;
  }

  // ---------------------------------------------------------------------------
  // DOM children
  // ---------------------------------------------------------------------------

  type NodeId = nat

  /** Each element's list of child nodes, in document order. */
  type Children = map<NodeId, seq<NodeId>>

  function ChildrenOf(t: Children, p: NodeId): seq<NodeId> {
    if p in t then t[p] else []
  }

  ghost predicate NoDup(s: seq<NodeId>) {
    forall i, j :: 0 <= i < j < |s| ==> s[i] != s[j]
  }

  /** A node has at most one parent and occurs once among that parent's children. */
  ghost predicate IsForest(t: Children) {
    && (forall p :: p in t ==> NoDup(t[p]))
    && (forall p, q, n :: p in t && q in t && n in t[p] && n in t[q] ==> p == q)
  }

  /** `s` with every occurrence of `n` taken out. */
  function Without(s: seq<NodeId>, n: NodeId): (r: seq<NodeId>)
    ensures |r| <= |s|
  {
    if s == [] then []
    else (if s[0] == n then [] else [s[0]]) + Without(s[1..], n)
  }

  /** What is left is every node of `s` other than `n`. */
  lemma {:induction false} WithoutMembers(s: seq<NodeId>, n: NodeId)
    ensures forall m :: m in Without(s, n) <==> m in s && m != n
  {
    if s != [] {
      WithoutMembers(s[1..], n);
      assert s == [s[0]] + s[1..];
    }
  }

  lemma {:induction false} WithoutAbsent(s: seq<NodeId>, n: NodeId)
    requires n !in s
    ensures Without(s, n) == s
  {
    if s != [] {
      WithoutAbsent(s[1..], n);
    }
  }

  lemma {:induction false} WithoutConcat(a: seq<NodeId>, b: seq<NodeId>, n: NodeId)
    ensures Without(a + b, n) == Without(a, n) + Without(b, n)
  {
    if a == [] {
      assert a + b == b;
    } else {
      assert (a + b)[1..] == a[1..] + b;
      WithoutConcat(a[1..], b, n);
    }
  }

  lemma {:induction false} WithoutNoDup(s: seq<NodeId>, n: NodeId)
    requires NoDup(s)
    ensures NoDup(Without(s, n))
  {
    if s != [] {
      assert NoDup(s[1..]) by {
        forall i, j | 0 <= i < j < |s[1..]| ensures s[1..][i] != s[1..][j] {
          assert s[1..][i] == s[i + 1] && s[1..][j] == s[j + 1];
        }
      }
      WithoutNoDup(s[1..], n);
      var rest := Without(s[1..], n);
      WithoutMembers(s[1..], n);
      if s[0] != n {
        assert s[0] !in s[1..];
        assert s[0] !in rest;
        var r := [s[0]] + rest;
        forall i, j | 0 <= i < j < |r| ensures r[i] != r[j] {
          if i == 0 { assert r[j] == rest[j - 1]; assert r[j] in rest; }
          else { assert r[i] == rest[i - 1] && r[j] == rest[j - 1]; }
        }
      }
    }
  }

  lemma NoDupInsert(s: seq<NodeId>, k: nat, n: NodeId)
    requires NoDup(s) && n !in s && k <= |s|
    ensures NoDup(s[..k] + [n] + s[k..])
  {
    var r := s[..k] + [n] + s[k..];
    forall i, j | 0 <= i < j < |r| ensures r[i] != r[j] {
      if i < k && j < k {
        assert r[i] == s[i] && r[j] == s[j];
      } else if i < k && j == k {
        assert r[i] == s[i];
      } else if i < k {
        assert r[i] == s[i] && r[j] == s[j - 1];
      } else if i == k {
        assert r[j] == s[j - 1];
      } else {
        assert r[i] == s[i - 1] && r[j] == s[j - 1];
      }
    }
  }

  lemma InSlices(s: seq<NodeId>, k: nat, x: NodeId)
    requires k <= |s| && x !in s
    ensures x !in s[..k] && x !in s[k..]
  {
    assert s == s[..k] + s[k..];
  }

  /** Without a duplicate, the element removed from index `k` occurs nowhere in what is left. */
  lemma RemovedExcludes(s: seq<NodeId>, k: nat)
    requires NoDup(s) && k < |s|
    ensures s[k] !in Removed(s, k)
  {
    var r := Removed(s, k);
    assert SpliceStart(|s|, k) == k;
    forall i | 0 <= i < |r| ensures r[i] != s[k] {
      if i < k { assert r[i] == s[i]; } else { assert r[i] == s[i + 1]; }
    }
  }

  /** Taking `x` out of a sequence where it occurs once, between `a` and `b`. */
  lemma WithoutSplit(a: seq<NodeId>, b: seq<NodeId>, x: NodeId)
    requires x !in a && x !in b
    ensures Without(a + [x] + b, x) == a + b
  {
    calc {
      Without(a + [x] + b, x);
    == { WithoutAround(a, b, x); }
      Without(a, x) + Without([x], x) + Without(b, x);
    == { WithoutSingle(x); WithoutAbsent(a, x); WithoutAbsent(b, x); }
      a + [] + b;
    == { assert a + [] == a; }
      a + b;
    }
  }

  lemma WithoutSingle(x: NodeId)
    ensures Without([x], x) == []
  {
    assert [x][1..] == [];
  }

  lemma WithoutAround(a: seq<NodeId>, b: seq<NodeId>, x: NodeId)
    ensures Without(a + [x] + b, x) == Without(a, x) + Without([x], x) + Without(b, x)
  {
    WithoutConcat(a + [x], b, x);
    WithoutConcat(a, [x], x);
  }

  /** Taking out a node that was just inserted gives the sequence back. */
  lemma WithoutInserted(u: seq<NodeId>, index: int, x: NodeId)
    requires x !in u
    ensures Without(Inserted(u, index, x), x) == u
  {
    var m := SpliceStart(|u|, index);
    var a, b := u[..m], u[m..];
    InSlices(u, m, x);
    assert Inserted(u, index, x) == a + [x] + b;
    WithoutSplit(a, b, x);
    assert u == a + b;
  }

  /** The children after a node is detached from its parent (removeNode). */
  function Detached(t: Children, n: NodeId): (r: Children)
    ensures r.Keys == t.Keys
    ensures forall p :: ChildrenOf(r, p) == Without(ChildrenOf(t, p), n)
  {
    map p | p in t :: Without(t[p], n)
  }

  /** After removeNode the node is nobody's child, and every other child stays where it was. */
  lemma DetachedRemoves(t: Children, n: NodeId)
    ensures forall p, m :: m in ChildrenOf(Detached(t, n), p) <==> m in ChildrenOf(t, p) && m != n
  {
    forall p ensures forall m :: m in ChildrenOf(Detached(t, n), p) <==> m in ChildrenOf(t, p) && m != n {
      WithoutMembers(ChildrenOf(t, p), n);
    }
  }

  /** Where a node inserted at `index` among `len` children lands: at `index`, or last when out of range. */
  function NodePosition(len: nat, index: int): (k: nat)
    ensures k <= len
  {
    if 0 <= index <= len then index else len
  }

  /** The children after `n` is moved to position `index` among `p`'s children (insertNodeAt). */
  function InsertedNode(t: Children, p: NodeId, n: NodeId, index: int): (r: Children)
    ensures var kids := Without(ChildrenOf(t, p), n); var k := NodePosition(|kids|, index);
      ChildrenOf(r, p) == kids[..k] + [n] + kids[k..]
    ensures forall q :: q != p ==> ChildrenOf(r, q) == Without(ChildrenOf(t, q), n)
  {
    var t1 := Detached(t, n);
    var kids := ChildrenOf(t1, p);
    t1[p := kids[..NodePosition(|kids|, index)] + [n] + kids[NodePosition(|kids|, index)..]]
  }

  /** Detaching a node keeps every node under at most one parent. */
  lemma DetachedKeepsForest(t: Children, n: NodeId)
    requires IsForest(t)
    ensures IsForest(Detached(t, n))
  {
    var r := Detached(t, n);
    forall p | p in r ensures NoDup(r[p]) {
      WithoutNoDup(t[p], n);
    }
    DetachedRemoves(t, n);
    forall p, q, m | p in r && q in r && m in r[p] && m in r[q] ensures p == q {
      assert m in ChildrenOf(r, p) && m in ChildrenOf(r, q);
    }
  }

  /** Besides `n`, a parent's children after the insertion were its children once `n` was detached. */
  lemma InsertedNodeAddsOnlyNode(t: Children, p: NodeId, n: NodeId, index: int)
    ensures forall q, m :: m in ChildrenOf(InsertedNode(t, p, n, index), q) && m != n ==> m in ChildrenOf(Detached(t, n), q)
  {
    var t1 := Detached(t, n);
    var kids := ChildrenOf(t1, p);
    var k := NodePosition(|kids|, index);
    var r := InsertedNode(t, p, n, index);
    assert kids == kids[..k] + kids[k..];
    forall q, m | m in ChildrenOf(r, q) && m != n ensures m in ChildrenOf(t1, q) {
      if q == p {
        assert m in kids[..k] || m in kids[k..];
      }
    }
  }

  /** Inserting a node keeps every node under at most one parent, and puts it under `p` only. */
  lemma InsertedNodeKeepsForest(t: Children, p: NodeId, n: NodeId, index: int)
    requires IsForest(t)
    ensures IsForest(InsertedNode(t, p, n, index))
    ensures forall q :: n in ChildrenOf(InsertedNode(t, p, n, index), q) <==> q == p
  {
    var t1 := Detached(t, n);
    DetachedKeepsForest(t, n);
    DetachedRemoves(t, n);
    var kids := ChildrenOf(t1, p);
    var k := NodePosition(|kids|, index);
    assert NoDup(kids) by {
      if p !in t1 { assert kids == []; }
    }
    NoDupInsert(kids, k, n);
    var r := InsertedNode(t, p, n, index);
    InsertedNodeAddsOnlyNode(t, p, n, index);
    forall q1, q2, m | q1 in r && q2 in r && m in r[q1] && m in r[q2] ensures q1 == q2 {
      assert m in ChildrenOf(r, q1) && m in ChildrenOf(r, q2);
      if m != n {
        assert m in ChildrenOf(t1, q1) && m in ChildrenOf(t1, q2);
      }
    }
  }

  /**
   * Putting `item` at index |left| of a container holding left + [copy] + right and then
   * detaching `copy` leaves left + [item] + right.
   */
  lemma InsertThenDetach(t: Children, p: NodeId, item: NodeId, copy: NodeId,
                                            left: seq<NodeId>, right: seq<NodeId>)
    requires ChildrenOf(t, p) == left + [copy] + right
    requires item != copy && item !in left && item !in right && copy !in left && copy !in right
    ensures ChildrenOf(Detached(InsertedNode(t, p, item, |left|), copy), p) == left + [item] + right
  {
    var k := |left|;
    var now := left + [copy] + right;
    assert item !in now;
    WithoutAbsent(now, item);
    assert NodePosition(|now|, k) == k;
    assert now[..k] == left && now[k..] == [copy] + right;
    var r1 := InsertedNode(t, p, item, k);
    assert ChildrenOf(r1, p) == (left + [item]) + [copy] + right;
    WithoutSplit(left + [item], right, copy);
  }

  /**
   * When a container holds `original` with the node at `k` moved to `j`, detaching that
   * node and inserting it back at `k` restores `original`.
   */
  lemma DetachThenReinsert(t: Children, p: NodeId, original: seq<NodeId>, k: nat, j: nat)
    requires NoDup(original) && k < |original| && j < |original|
    requires ChildrenOf(t, p) == Moved(original, k, j)
    ensures ChildrenOf(InsertedNode(Detached(t, original[k]), p, original[k], k), p) == original
  {
    var item := original[k];
    var u := Removed(original, k);
    RemovedExcludes(original, k);
    assert Moved(original, k, j) == Inserted(u, j, item);
    WithoutInserted(u, j, item);
    var t1 := Detached(t, item);
    assert ChildrenOf(t1, p) == u;
    WithoutAbsent(u, item);
    assert |u| == |original| - 1 by { assert SpliceStart(|original|, k) == k; }
    assert NodePosition(|u|, k) == k;
    assert SpliceStart(|u|, k) == k;
    RemovedThenInserted(original, k);
  }

  /** The document: every element's children, and the value each node carries under the controller's private clone key. */
  class Dom {
    var children: Children
    var stash: map<NodeId, Value>

    ghost predicate Valid()
      reads this
    {
      IsForest(children)
    }

    constructor (children: Children)
      requires IsForest(children)
      ensures Valid() && this.children == children && stash == map[]
    {
      this.children := children;
      this.stash := map[];
    }
  }

  /** removeNode: detaches `node` from its parent, if it has one. */
  method RemoveNode(dom: Dom, node: NodeId)
    requires dom.Valid()
    modifies dom
    ensures dom.Valid()
    ensures dom.children == Detached(old(dom.children), node) && dom.stash == old(dom.stash)
  {
    DetachedKeepsForest(dom.children, node);
    dom.children := Detached(dom.children, node);
  }

  /** insertNodeAt: moves `element` to position `index` among `parentElement`'s children (last if out of range). */
  method InsertNodeAt(dom: Dom, parentElement: NodeId, element: NodeId, index: int)
    requires dom.Valid()
    modifies dom
    ensures dom.Valid()
    ensures dom.children == InsertedNode(old(dom.children), parentElement, element, index)
    ensures dom.stash == old(dom.stash)
  {
    InsertedNodeKeepsForest(dom.children, parentElement, element, index);
    dom.children := InsertedNode(dom.children, parentElement, element, index);
  }

  // ---------------------------------------------------------------------------
  // Strings and objects
  // ---------------------------------------------------------------------------

  predicate IsLower(c: char) {
    'a' <= c <= 'z'
  }

  /** The characters `\w` matches in a regular expression. */
  predicate IsWordChar(c: char) {
    IsLower(c) || 'A' <= c <= 'Z' || '0' <= c <= '9' || c == '_'
  }

  /** String.prototype.toUpperCase on one word character. */
  function Upper(c: char): (u: char)
    ensures !IsLower(u)
    ensures IsWordChar(c) ==> IsWordChar(u) && u != '-'
  {
    if IsLower(c) then (c as int - 32) as char else c
  }

  /**
   * camelize: every hyphen followed by a word character is dropped and that character
   * upper-cased, scanning left to right without overlap.
   */
  function Camelize(str: string): (r: string)
    ensures |r| <= |str|
    ensures |str| > 0 ==> |r| > 0 && (IsLower(r[0]) ==> r[0] == str[0])
    ensures |str| > 0 && IsLower(str[0]) ==> r[0] == str[0]
  {
    if |str| == 0 then ""
    else if |str| >= 2 && str[0] == '-' && IsWordChar(str[1]) then [Upper(str[1])] + Camelize(str[2..])
    else [str[0]] + Camelize(str[1..])
  }

  /** A string without hyphens is already camelCase. */
  lemma {:induction false} CamelizeWithoutHyphen(str: string)
    requires '-' !in str
    ensures Camelize(str) == str
  {
    if |str| > 0 {
      assert str[0] != '-';
      assert '-' !in str[1..];
      CamelizeWithoutHyphen(str[1..]);
    }
  }

  /**
   * A hyphen-free word, a hyphen, a word character and a hyphen-free tail camelize to the
   * word, the upper-cased character and the tail: `ghost-class` becomes `ghostClass`.
   */
  lemma {:induction false} CamelizeJoin(word: string, c: char, tail: string)
    requires '-' !in word && '-' !in tail && IsWordChar(c)
    ensures Camelize(word + ['-', c] + tail) == word + [Upper(c)] + tail
  {
    if |word| == 0 {
      assert word + ['-', c] + tail == ['-', c] + tail;
      assert (['-', c] + tail)[2..] == tail;
      CamelizeWithoutHyphen(tail);
    } else {
      var str := word + ['-', c] + tail;
      assert str[0] == word[0] && word[0] != '-';
      assert Camelize(str) == [str[0]] + Camelize(str[1..]);
      assert str[1..] == word[1..] + ['-', c] + tail;
      assert '-' !in word[1..];
      CamelizeJoin(word[1..], c, tail);
      assert word + [Upper(c)] + tail == [word[0]] + (word[1..] + [Upper(c)] + tail);
    }
  }

  /** No hyphen in `s` is followed by a lower-case letter: nothing left for camelize to convert. */
  ghost predicate NoHyphenLower(s: string) {
    forall i :: 0 <= i < |s| - 1 && s[i] == '-' ==> !IsLower(s[i + 1])
  }

  /** After camelize, no hyphen is followed by a lower-case letter. */
  lemma {:induction false} CamelizeLeavesNoHyphenLower(str: string)
    ensures NoHyphenLower(Camelize(str))
  {
    var r := Camelize(str);
    if |str| == 0 {
    } else if |str| >= 2 && str[0] == '-' && IsWordChar(str[1]) {
      var rest := Camelize(str[2..]);
      CamelizeLeavesNoHyphenLower(str[2..]);
      assert r == [Upper(str[1])] + rest;
      forall i | 0 <= i < |r| - 1 && r[i] == '-' ensures !IsLower(r[i + 1]) {
        assert i > 0;
        assert r[i] == rest[i - 1] && r[i + 1] == rest[i];
        assert 0 <= i - 1 < |rest| - 1 && rest[i - 1] == '-';
      }
    } else {
      var rest := Camelize(str[1..]);
      CamelizeLeavesNoHyphenLower(str[1..]);
      assert r == [str[0]] + rest;
      forall i | 0 <= i < |r| - 1 && r[i] == '-' ensures !IsLower(r[i + 1]) {
        if i == 0 {
          assert r[1] == rest[0];
          assert !IsWordChar(str[1]);
        } else {
          assert r[i] == rest[i - 1] && r[i + 1] == rest[i];
          assert 0 <= i - 1 < |rest| - 1 && rest[i - 1] == '-';
        }
      }
    }
  }

  /**
   * objectMap: the object whose keys are the camelized keys of `entries` (an object's own
   * entries in insertion order); when two keys camelize alike, the later entry wins.
   */
  function ObjectMap(entries: seq<(string, Value)>): (r: map<string, Value>)
    ensures r.Keys == set i | 0 <= i < |entries| :: Camelize(entries[i].0)
  {
    if entries == [] then map[]
    else
      var last := entries[|entries| - 1];
      var init := entries[..|entries| - 1];
      var r := ObjectMap(init)[Camelize(last.0) := last.1];
      assert forall i :: 0 <= i < |init| ==> init[i] == entries[i];
      r
  }

  /** Each entry's value is found under its camelized key unless a later entry has the same camelized key. */
  lemma {:induction false} ObjectMapValue(entries: seq<(string, Value)>, i: nat)
    requires i < |entries|
    requires forall j :: i < j < |entries| ==> Camelize(entries[j].0) != Camelize(entries[i].0)
    ensures Camelize(entries[i].0) in ObjectMap(entries)
    ensures ObjectMap(entries)[Camelize(entries[i].0)] == entries[i].1
  {
    var n := |entries|;
    if i < n - 1 {
      var init := entries[..n - 1];
      assert init[i] == entries[i];
      forall j | i < j < |init| ensures Camelize(init[j].0) != Camelize(init[i].0) {
        assert init[j] == entries[j];
      }
      ObjectMapValue(init, i);
      assert ObjectMap(entries) == ObjectMap(init)[Camelize(entries[n - 1].0) := entries[n - 1].1];
    }
  }

  // ---------------------------------------------------------------------------
  // Type tests
  // ---------------------------------------------------------------------------

  /** isUndefined: true exactly for `undefined`. */
  predicate IsUndefined(value: Value)
    ensures IsUndefined(value) <==> value == Undefined
  {
    value.Undefined?
  }

  /** isString: true exactly for string values. */
  predicate IsString(value: Value)
    ensures IsString(value) <==> exists s :: value == Str(s)
  {
    value.Str?
  }

  // ---------------------------------------------------------------------------
  // Callbacks and options
  // ---------------------------------------------------------------------------

  /** mergeExecuted: a function that runs `fn` and then, unless `fn` threw, `afterFn`. */
  function MergeExecuted(fn: Value, afterFn: Value): (r: Value)
    ensures forall failing :: Invoke(fn, failing).threw ==> Invoke(r, failing) == Invoke(fn, failing)
    ensures forall failing :: !Invoke(fn, failing).threw ==>
      Invoke(r, failing) == Run(Invoke(fn, failing).trace + Invoke(afterFn, failing).trace, Invoke(afterFn, failing).threw)
  {
    Func(Then(fn, afterFn))
  }

  /** Composing with mergeExecuted is associative: only the order of the parts matters. */
  lemma MergeExecutedAssociative(f: Value, g: Value, h: Value, failing: set<Callback>)
    ensures Invoke(MergeExecuted(MergeExecuted(f, g), h), failing) == Invoke(MergeExecuted(f, MergeExecuted(g, h)), failing)
  {
    if !Invoke(f, failing).threw && !Invoke(g, failing).threw {
      assert Invoke(f, failing).trace + Invoke(g, failing).trace + Invoke(h, failing).trace
          == Invoke(f, failing).trace + (Invoke(g, failing).trace + Invoke(h, failing).trace);
    }
  }

  /**
   * mergeOptionsEvents: the keys of both objects; where both define a key the two values
   * are composed with `options`' value running first, elsewhere the defined value is kept.
   */
  function MergeOptionsEvents(options: map<string, Value>, events: map<string, Value>): (r: map<string, Value>)
    ensures r.Keys == options.Keys + events.Keys
    ensures forall k :: k in events && k !in options ==> r[k] == events[k]
    ensures forall k :: k in options && k !in events ==> r[k] == options[k]
    ensures forall k :: k in options && k in events ==> r[k] == MergeExecuted(options[k], events[k])
  {
    map k | k in options.Keys + events.Keys ::
      if k in options && k in events then MergeExecuted(options[k], events[k])
      else if k in events then events[k]
      else options[k]
  }

  /** With nothing to merge into, the events object comes back unchanged. */
  lemma MergeOptionsEventsIntoNothing(events: map<string, Value>)
    ensures MergeOptionsEvents(map[], events) == events
  {
  }
}
