/** The item lists of gateway/src/cJSON.c: the children of an array or object form a doubly linked
    list whose head's `prev` is the tail. Each operation is proved against the sequence operation
    it stands for, on lists of every length and at every position. */
module ItemList {
  import opened Lists

  class Item {
    var next: Item?
    var prev: Item?
    var child: Item?

    /** A new item, as `cJSON_New_Item` clears it. */
    constructor ()
      ensures next == null && prev == null && child == null
    {
      next, prev, child := null, null, null;
    }
  }

  /** The item after place `i`. */
  function Succ(s: seq<Item>, i: nat): (x: Item?)
    requires i < |s|
  {
    if i + 1 < |s| then s[i + 1] else null
  }

  /** The item before place `i`, the one before the head being the tail. */
  function Pred(s: seq<Item>, i: nat): (x: Item)
    requires i < |s|
  {
    if i == 0 then s[|s| - 1] else s[i - 1]
  }

  /** `next` and `prev` are mutually inverse along `s`, and the head's `prev` is the tail. */
  predicate Linked(parent: Item, s: seq<Item>)
    reads parent, s
  {
    && Distinct(s) && parent !in s
    && parent.child == (if s == [] then null else s[0])
    && (forall i :: 0 <= i < |s| ==> s[i].next == Succ(s, i) && s[i].prev == Pred(s, i))
  }

  /** Forwards and backwards the links meet the same items, and the tail is found from the head. */
  lemma WalksAgree(parent: Item, s: seq<Item>, i: nat)
    requires Linked(parent, s) && i < |s|
    ensures s[i].next != null ==> s[i].next.prev == s[i]
    ensures s[i] != parent.child ==> s[i].prev.next == s[i]
    ensures parent.child.prev.next == null
  {
    assert s[|s| - 1].next == Succ(s, |s| - 1);
  }

  // ---- Places, on sequences alone ----

  /** The place after `k` on the ring that `prev` makes of the list. */
  function Around(s: seq<Item>, k: nat): (c: nat)
    requires k < |s|
    ensures c < |s|
  {
    if k + 1 == |s| then 0 else k + 1
  }

  /** In a list without repetition, the neighbours of a place are known by their items. */
  lemma Neighbours(s: seq<Item>, k: nat)
    requires Distinct(s) && k < |s|
    ensures forall i :: 0 <= i < |s| ==> (s[i] == s[k] <==> i == k)
    ensures forall i :: 0 <= i < |s| ==> (s[i] == s[0] <==> i == 0)
    ensures forall i :: 0 <= i < |s| && k > 0 ==> (s[i] == Pred(s, k) <==> i + 1 == k)
    ensures forall i :: 0 <= i < |s| ==> (s[i] == Succ(s, k) <==> i == k + 1)
    ensures Pred(s, k) in s && (Succ(s, k) == null || Succ(s, k) in s) && (Succ(s, k) == null <==> k + 1 == |s|)
    ensures s[0] in s && s[k] in s && (Pred(s, k) == s[k] <==> |s| == 1)
    ensures (k > 0 ==> Pred(s, k) != s[k]) && Succ(s, k) != s[k] && (k + 1 == |s| ==> Pred(s, 0) == s[k])
  {
  }

  function With(s: seq<Item>, k: nat, x: Item): (t: seq<Item>)
    requires k <= |s|
    ensures |t| == |s| + 1
  {
    s[..k] + [x] + s[k..]
  }

  lemma DistinctWithout(s: seq<Item>, k: nat)
    requires Distinct(s) && k < |s|
    ensures Distinct(Without(s, k)) && forall x :: x in Without(s, k) ==> x in s
  {
    var t := Without(s, k);
    forall i, j | 0 <= i < j < |t| ensures t[i] != t[j] {
      assert t[i] == s[if i < k then i else i + 1] && t[j] == s[if j < k then j else j + 1];
    }
  }

  lemma DistinctWith(s: seq<Item>, k: nat, x: Item)
    requires Distinct(s) && k <= |s| && x !in s
    ensures var t := With(s, k, x);
            Distinct(t) && (forall y :: y in t ==> y == x || y in s) && t[0] == if k == 0 then x else s[0]
  {
    var t := With(s, k, x);
    forall i, j | 0 <= i < j < |t| ensures t[i] != t[j] {
      assert i != k ==> t[i] == s[if i < k then i else i - 1];
      assert j != k ==> t[j] == s[if j < k then j else j - 1];
    }
  }

  lemma PlacesWithout(s: seq<Item>, k: nat, i: nat)
    requires k < |s| && i < |s| - 1
    ensures var t, j := Without(s, k), if i < k then i else i + 1;
            && t[i] == s[j]
            && Succ(t, i) == (if j + 1 == k then Succ(s, k) else Succ(s, j))
            && Pred(t, i) == (if j == Around(s, k) then Pred(s, k) else Pred(s, j))
  {
    var t, n := Without(s, k), |s| - 2;
    assert t[n] == s[if n < k then n else n + 1];
    assert i > 0 ==> t[i - 1] == s[if i - 1 < k then i - 1 else i];
    assert i < n ==> t[i + 1] == s[if i + 1 < k then i + 1 else i + 2];
  }

  lemma PlacesWith(s: seq<Item>, k: nat, x: Item, i: nat)
    requires k <= |s| && i <= |s|
    ensures var t := With(s, k, x);
            if i == k then
              t[i] == x && Succ(t, i) == (if k < |s| then s[k] else null) &&
              Pred(t, i) == (if s == [] then x else if k < |s| then Pred(s, k) else s[k - 1])
            else
              var j := if i < k then i else i - 1;
              && t[i] == s[j] && Succ(t, i) == (if j + 1 == k then x else Succ(s, j))
              && Pred(t, i) == (if j == (if k == |s| then 0 else k) then x else Pred(s, j))
  {
  }

  // ---- The operations ----

  method ArraySize(parent: Item?, ghost s: seq<Item>) returns (size: nat)
    requires parent != null ==> Linked(parent, s)
    ensures size == if parent == null then 0 else |s|
  {
    size := 0;
    if parent == null { return; }
    var child := parent.child;
    while child != null
      invariant size <= |s| && child == if size < |s| then s[size] else null
      decreases |s| - size
    {
      size := size + 1;
      child := child.next;
    }
  }

  method GetItem(parent: Item?, index: nat, ghost s: seq<Item>) returns (item: Item?)
    requires parent != null ==> Linked(parent, s)
    ensures item == if parent != null && index < |s| then s[index] else null
  {
    if parent == null { return null; }
    var left: nat := index;
    item := parent.child;
    ghost var k := 0;
    while item != null && left > 0
      invariant 0 <= k <= |s| && (k < |s| ==> item == s[k]) && (k == |s| <==> item == null) && left + k == index
      decreases left
    {
      left := left - 1;
      item := item.next;
      k := k + 1;
    }
  }

  method Suffix(prev: Item, item: Item)
    modifies prev`next, item`prev
    ensures prev.next == item && item.prev == prev
    ensures prev != item ==> item.next == old(item.next) && prev.prev == old(prev.prev)
  {
    prev.next := item;
    item.prev := prev;
  }

  /** The links of `s` with `x` put in before place `k`, or at the end. */
  predicate Spliced(s: seq<Item>, k: nat, x: Item)
    requires k <= |s|
    reads s, x
  {
    && (forall i :: 0 <= i < |s| ==> s[i].next == (if i + 1 == k then x else Succ(s, i)))
    && (forall i :: 0 <= i < |s| ==> s[i].prev == (if i == (if k == |s| then 0 else k) then x else Pred(s, i)))
    && x.prev == (if s == [] then x else if k < |s| then Pred(s, k) else s[k - 1])
    && x.next == (if k < |s| then s[k] else null)
  }

  lemma SplicedAt(s: seq<Item>, k: nat, x: Item, i: nat)
    requires k <= |s| && i <= |s| && Spliced(s, k, x)
    ensures var t := With(s, k, x); t[i].next == Succ(t, i) && t[i].prev == Pred(t, i)
  {
    hide Succ, Pred, With;
    PlacesWith(s, k, x, i);
  }

  lemma LinkedByPlace(parent: Item, t: seq<Item>)
    requires Distinct(t) && parent !in t && t != [] && parent.child == t[0]
    requires forall i :: 0 <= i < |t| ==> t[i].next == Succ(t, i) && t[i].prev == Pred(t, i)
    ensures Linked(parent, t)
  {
    hide Succ, Pred, Distinct;
  }

  lemma SplicedIsLinked(parent: Item, s: seq<Item>, k: nat, x: Item)
    requires Distinct(s) && parent !in s && x !in s && x != parent && k <= |s| && Spliced(s, k, x)
    requires parent.child == if k == 0 then x else s[0]
    ensures Linked(parent, With(s, k, x))
  {
    var t := With(s, k, x);
    DistinctWith(s, k, x);
    hide Distinct, Succ, Pred, Spliced, Linked, With;
    forall i | 0 <= i < |t| ensures t[i].next == Succ(t, i) && t[i].prev == Pred(t, i) { SplicedAt(s, k, x, i); }
    LinkedByPlace(parent, t);
  }

  /** `add_item_to_array`. The item's own `next` is left alone on a non-empty list, and nothing stops
      an item from being added twice: the result is a well-formed list exactly when the item was not
      in it, and its `next` was null or the list was empty. */
  method Add(parent: Item?, item: Item?, ghost s: seq<Item>) returns (ok: bool)
    requires parent != null ==> Linked(parent, s)
    modifies parent, item, s
    ensures ok <==> parent != null && item != null && parent != item
    ensures ok ==> (Linked(parent, s + [item]) <==> item !in s && (s == [] || old(item.next) == null))
    ensures ok ==> parent.child == (if s == [] then item else s[0])
    ensures ok && s != [] ==> s[|s| - 1].next == item && (item !in s ==> item.next == old(item.next))
    ensures !ok && parent != null ==> Linked(parent, s)
  {
    hide Distinct, Succ, Pred;
    if item == null || parent == null || parent == item { return false; }
    ghost var n := |s|;
    if n > 0 { Neighbours(s, n - 1); }
    var child := parent.child;
    if child == null {
      parent.child := item;
      item.prev := item;
      item.next := null;
    } else {
      Suffix(child.prev, item);
      parent.child.prev := item;
    }
    if item in s {
      Repeated(s, s + [item], item);
    } else if item.next == null {
      SplicedIsLinked(parent, s, n, item);
      assert With(s, n, item) == s + [item];
    } else {
      LastNext(parent, s, item);
    }
    return true;
  }

  /** An item added twice follows itself, so that a walk of the array never ends. */
  method AddTwice() returns (parent: Item, item: Item)
    ensures parent.child == item && item.next == item
  {
    parent := new Item();
    item := new Item();
    var ok := Add(parent, item, []);
    assert [] + [item] == [item];
    ok := Add(parent, item, [item]);
  }

  method Pair() returns (parent: Item, x: Item, y: Item)
    ensures Linked(parent, [x, y]) && x.next == y && fresh({parent, x, y})
  {
    parent := new Item();
    x := new Item();
    y := new Item();
    hide Succ, Pred, Distinct, Linked;
    EmptyLinked(parent);
    var ok := Add(parent, x, []);
    assert [] + [x] == [x];
    ok := Add(parent, y, [x]);
    assert [x] + [y] == [x, y] && [x][|[x]| - 1] == x;
  }

  /** An item added to a second array while it is still in the first drags those after it along: a
      walk of the second array meets three items, though two were added. */
  method AddWhileElsewhere() returns (first: Item, second: Item, x: Item, y: Item, z: Item)
    ensures second.child == z && z.next == x && x.next == y && y != z && !Linked(second, [z, x])
  {
    first, x, y := Pair();
    second := new Item();
    z := new Item();
    hide Succ, Pred, Distinct, Linked;
    EmptyLinked(second);
    var ok := Add(second, z, []);
    assert [] + [z] == [z];
    ok := Add(second, x, [z]);
    assert [z] + [x] == [z, x] && [z][|[z]| - 1] == z;
  }

  lemma EmptyLinked(parent: Item)
    requires parent.child == null
    ensures Linked(parent, [])
  {
  }

  /** A list that holds an item once more than before is not without repetition. */
  lemma Repeated(s: seq<Item>, t: seq<Item>, item: Item)
    requires item in s && (t == s + [item] || exists k: nat :: k <= |s| && t == With(s, k, item))
    ensures !Distinct(t)
  {
    var j :| 0 <= j < |s| && s[j] == item;
    if t == s + [item] {
      assert t[j] == t[|s|];
    } else {
      var k: nat :| k <= |s| && t == With(s, k, item);
      assert t[k] == item && t[if j < k then j else j + 1] == item;
    }
  }

  lemma LastNext(parent: Item, s: seq<Item>, item: Item)
    requires item.next != null
    ensures !Linked(parent, s + [item])
  {
    var t := s + [item];
    assert t[|s|] == item && Succ(t, |s|) == null;
  }

  /** The links of `s` with place `k` taken out. */
  predicate Unlinked(s: seq<Item>, k: nat)
    requires k < |s|
    reads s
  {
    && (forall i :: 0 <= i < |s| && i != k ==> s[i].next == (if i + 1 == k then Succ(s, k) else Succ(s, i)))
    && (forall i :: 0 <= i < |s| && i != k ==> s[i].prev == (if i == Around(s, k) then Pred(s, k) else Pred(s, i)))
  }

  lemma UnlinkedIsLinked(parent: Item, s: seq<Item>, k: nat)
    requires Distinct(s) && parent !in s && k < |s| && Unlinked(s, k)
    requires parent.child == if k > 0 then s[0] else Succ(s, 0)
    ensures Linked(parent, Without(s, k))
  {
    var t := Without(s, k);
    DistinctWithout(s, k);
    assert t != [] ==> t[0] == if k > 0 then s[0] else Succ(s, 0);
    assert t == [] ==> Succ(s, 0) == null && k == 0;
    hide Distinct, Succ, Pred, Around;
    forall i | 0 <= i < |t| ensures t[i].next == Succ(t, i) && t[i].prev == Pred(t, i) {
      PlacesWithout(s, k, i);
    }
  }

  /** `cJSON_DetachItemViaPointer` for the item at any place `k` of the list, or one in no list. */
  method Detach(parent: Item?, item: Item?, ghost s: seq<Item>, ghost k: nat) returns (r: Item?)
    requires parent != null ==> Linked(parent, s)
    requires parent != null && item != null ==> (k < |s| && s[k] == item) || (item !in s && item.prev == null)
    modifies parent, s
    ensures r == if parent == null || (item != null && item !in s) then null else item
    ensures r != null ==> Linked(parent, Without(s, k)) && item.next == null && item.prev == null
    ensures r == null && parent != null ==> Linked(parent, s)
  {
    hide Distinct, Succ, Pred;
    if parent == null || item == null || (item != parent.child && item.prev == null) { return null; }
    Neighbours(s, k);
    if item != parent.child {
      item.prev.next := item.next;
    }
    if item.next != null {
      item.next.prev := item.prev;
    }
    if item == parent.child {
      parent.child := item.next;
    } else if item.next == null {
      parent.child.prev := item.prev;
    }
    item.prev := null;
    item.next := null;
    UnlinkedIsLinked(parent, s, k);
    return item;
  }

  /** `cJSON_InsertItemInArray`: before the item at `which`, or at the end if there is none. Nothing
      stops the array itself, or an item that is already in it, from being inserted: the result is a
      well-formed list exactly when neither is the case, and at the end when `Add` makes it one. */
  method Insert(parent: Item?, which: int, item: Item?, ghost s: seq<Item>) returns (ok: bool)
    requires parent != null ==> Linked(parent, s)
    modifies parent, item, s
    ensures ok <==> which >= 0 && item != null && parent != null && (which < |s| || item != parent)
    ensures ok && which < |s| ==> (Linked(parent, With(s, which, item)) <==> item !in s && item != parent)
    ensures ok && which >= |s| ==>
              (Linked(parent, s + [item]) <==> item !in s && (s == [] || old(item.next) == null))
    ensures !ok && parent != null ==> Linked(parent, s)
  {
    hide Distinct, Succ, Pred;
    if which < 0 || item == null { return false; }
    var after := GetItem(parent, which, s);
    if after == null {
      ok := Add(parent, item, s);
      return;
    }
    if after != parent.child && after.prev == null { return false; }
    Neighbours(s, which);
    item.next := after;
    item.prev := after.prev;
    after.prev := item;
    if after == parent.child {
      parent.child := item;
    } else {
      item.prev.next := item;
    }
    if item in s {
      Repeated(s, With(s, which, item), item);
    } else if item == parent {
      HoldsItself(parent, s, which);
    } else {
      SplicedIsLinked(parent, s, which, item);
    }
    return true;
  }

  lemma HoldsItself(parent: Item, s: seq<Item>, k: nat)
    requires k <= |s|
    ensures parent in With(s, k, parent)
  {
    assert With(s, k, parent)[k] == parent;
  }

  /** The links of `s` with `x` in the place of the item at `k`. */
  predicate Swapped(s: seq<Item>, k: nat, x: Item)
    requires k < |s|
    reads s, x
  {
    && (forall i :: 0 <= i < |s| && i != k ==> s[i].next == (if i + 1 == k then x else Succ(s, i)))
    && (forall i :: 0 <= i < |s| && i != k ==> s[i].prev == (if i == Around(s, k) then x else Pred(s, i)))
    && x.next == Succ(s, k) && x.prev == (if |s| == 1 then x else Pred(s, k))
  }

  lemma PlacesSwapped(s: seq<Item>, k: nat, x: Item, i: nat)
    requires k < |s| && i < |s|
    ensures var t := s[k := x];
            if i == k then Succ(t, i) == Succ(s, k) && Pred(t, i) == (if |s| == 1 then x else Pred(s, k))
            else
              && Succ(t, i) == (if i + 1 == k then x else Succ(s, i))
              && Pred(t, i) == (if i == Around(s, k) then x else Pred(s, i))
  {
  }

  lemma SwappedIsLinked(parent: Item, s: seq<Item>, k: nat, x: Item)
    requires Distinct(s) && parent !in s && x !in s && x != parent && k < |s| && Swapped(s, k, x)
    requires parent.child == if k == 0 then x else s[0]
    ensures Linked(parent, s[k := x])
  {
    var t := s[k := x];
    assert Distinct(t);
    hide Distinct, Succ, Pred, Around;
    forall i | 0 <= i < |t| ensures t[i].next == Succ(t, i) && t[i].prev == Pred(t, i) {
      PlacesSwapped(s, k, x, i);
      assert i != k ==> t[i] == s[i];
    }
  }

  lemma NotReplaced(parent: Item, s: seq<Item>, k: nat, x: Item)
    requires k < |s| && x != s[k] && (x in s || x == parent)
    ensures !Distinct(s[k := x]) || parent in s[k := x]
  {
    var t := s[k := x];
    assert t[k] == x;
    if x in s {
      var j :| 0 <= j < |s| && s[j] == x;
      assert t[j] == x;
    }
  }

  lemma HeadPointsBack(parent: Item, s: seq<Item>, x: Item)
    requires Distinct(s) && parent !in s && s != [] && parent.child == s[0] && s[0].prev == x && x.next == null
    requires x == s[0] || x.prev == null
    ensures Linked(parent, s) <==> s == [x]
  {
    if |s| > 1 {
      assert Pred(s, |s| - 1) == s[|s| - 2] && Pred(s, 0) == s[|s| - 1];
    }
  }

  /** `cJSON_ReplaceItemViaPointer` for the item at any place `k` of the list, or one in no list. In the
      first case the result is a well-formed list exactly when the replacement is the item itself, or is
      neither in the list already nor the array. In the second the head of a non-empty list is made to
      point back to the replacement. */
  method Replace(parent: Item?, item: Item?, replacement: Item?, ghost s: seq<Item>, ghost k: nat) returns (ok: bool)
    requires parent != null ==> Linked(parent, s)
    requires parent != null && item != null ==>
      (k < |s| && s[k] == item) || (item !in s && item.next == null && item.prev == null)
    modifies s, parent, replacement, item
    ensures ok <==> parent != null && item != null && replacement != null && s != []
    ensures ok && item in s ==> (Linked(parent, s[k := replacement]) <==>
                                 replacement == item || (replacement !in s && replacement != parent))
    ensures ok && item !in s ==> (Linked(parent, s) <==> replacement == item || s == [replacement])
    ensures ok && replacement != item ==> item.next == null && item.prev == null
    ensures !ok && parent != null ==> Linked(parent, s)
  {
    hide Distinct, Succ, Pred;
    if parent == null || parent.child == null || replacement == null || item == null { return false; }
    if replacement == item {
      assert item in s ==> s[k := replacement] == s;
      return true;
    }
    ghost var inside := item in s;
    if inside { Neighbours(s, k); } else { Neighbours(s, |s| - 1); }
    replacement.next := item.next;
    replacement.prev := item.prev;
    if replacement.next != null {
      replacement.next.prev := replacement;
    }
    if parent.child == item {
      if parent.child.prev == parent.child {
        replacement.prev := replacement;
      }
      parent.child := replacement;
    } else {
      if replacement.prev != null {
        replacement.prev.next := replacement;
      }
      if replacement.next == null {
        parent.child.prev := replacement;
      }
    }
    item.next := null;
    item.prev := null;
    if !inside {
      HeadPointsBack(parent, s, replacement);
    } else if replacement in s || replacement == parent {
      NotReplaced(parent, s, k, replacement);
    } else {
      SwappedIsLinked(parent, s, k, replacement);
    }
    return true;
  }
}
