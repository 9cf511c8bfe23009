// The older leak tracker of src/anv_leaks.h: the same counters as
// include/anv_leaks.h, with the records on a circular doubly linked list
// whose head lives in the tracker.  Nodes are naturals: 0 is NULL, HEAD is
// the list head inside anv_leaks__settings, and the `next`/`prev` fields of
// all nodes are two maps.  Each list helper is the sequence of pointer
// writes of its C body, applied in order, so aliasing (an empty list whose
// head is its own neighbour) behaves as it does in C.

module LeaksList {
  import opened Bytes
  import opened Leaks

  const NULL: nat := 0
  const HEAD: nat := 1

  /** The `next` and `prev` fields of every node. */
  datatype Links = Links(next: map<nat, nat>, prev: map<nat, nat>)

  /** Position `k` of the list read from the first entry round to the head:
      the entry, and the head once past the last one. */
  function At(h: nat, xs: seq<nat>, k: nat): nat
  {
    if k < |xs| then xs[k] else h
  }

  /** The node before entry `i`: the previous entry, or the head. */
  function Before(h: nat, xs: seq<nat>, i: nat): nat
    requires i <= |xs|
  {
    if i == 0 then h else xs[i - 1]
  }

  function Last(h: nat, xs: seq<nat>): nat
  {
    if xs == [] then h else xs[|xs| - 1]
  }

  /** No node occurs twice.  The pairwise fact is wrapped in `Differ` so that
      it is only drawn on for the pairs a proof names. */
  predicate Distinct(xs: seq<nat>)
  {
    forall i, j :: 0 <= i < j < |xs| ==> Differ(xs, i, j)
  }

  predicate Differ(xs: seq<nat>, i: nat, j: nat)
    requires i < |xs| && j < |xs|
  {
    xs[i] != xs[j]
  }

  lemma DistinctAt(xs: seq<nat>, i: nat, j: nat)
    requires Distinct(xs) && i < |xs| && j < |xs| && i != j
    ensures xs[i] != xs[j]
  {
    if i < j {
      assert Differ(xs, i, j);
    } else {
      assert Differ(xs, j, i);
    }
  }

  /** `h` heads a circular doubly linked list holding the entries `xs`, in
      order after the head: the head's next is the first entry and its prev
      the last, and each entry points at its neighbours. */
  predicate Ring(l: Links, h: nat, xs: seq<nat>)
  {
    h != NULL && NULL !in xs && h !in xs && Distinct(xs)
    && h in l.next && l.next[h] == At(h, xs, 0) && h in l.prev && l.prev[h] == Last(h, xs)
    && forall i {:trigger l.next[xs[i]]} {:trigger l.prev[xs[i]]} :: 0 <= i < |xs| ==>
         xs[i] in l.next && l.next[xs[i]] == At(h, xs, i + 1) && xs[i] in l.prev && l.prev[xs[i]] == Before(h, xs, i)
  }

  /** The links of every node outside `s` are as in `l`. */
  predicate SameOutside(l: Links, l2: Links, s: set<nat>)
  {
    (forall k :: k in l.next && k !in s ==> k in l2.next && l2.next[k] == l.next[k])
    && (forall k :: k in l.prev && k !in s ==> k in l2.prev && l2.prev[k] == l.prev[k])
  }

  /** A list none of whose nodes a change touches is still the same list. */
  lemma RingFrame(l: Links, l2: Links, s: set<nat>, h: nat, xs: seq<nat>)
    requires Ring(l, h, xs) && SameOutside(l, l2, s)
    requires h !in s && forall k :: k in xs ==> k !in s
    ensures Ring(l2, h, xs)
  {
    forall i | 0 <= i < |xs|
      ensures xs[i] in l2.next && l2.next[xs[i]] == At(h, xs, i + 1) && xs[i] in l2.prev && l2.prev[xs[i]] == Before(h, xs, i)
    {
      assert xs[i] in xs;
      RingAt(l, h, xs, i);
    }
  }

  /** The links a list gives entry `i`. */
  lemma RingAt(l: Links, h: nat, xs: seq<nat>, i: nat)
    requires Ring(l, h, xs) && i < |xs|
    ensures xs[i] in l.next && l.next[xs[i]] == At(h, xs, i + 1)
    ensures xs[i] in l.prev && l.prev[xs[i]] == Before(h, xs, i)
  {
  }

  // ---------------------------------------------------------------------
  // The list helpers.

  /** anv_leaks__map_init. */
  function InitL(l: Links, h: nat): Links
  {
    Links(l.next[h := h], l.prev[h := h])
  }

  /** anv_leaks__map_add: insert `n` right after the head. */
  function AddL(l: Links, h: nat, n: nat): (r: Links)
    requires h in l.next
    ensures SameOutside(l, r, {h, n, l.next[h]})
  {
    var l1 := Links(l.next, l.prev[l.next[h] := n]);
    var l2 := Links(l1.next[n := l1.next[h]], l1.prev);
    var l3 := Links(l2.next, l2.prev[n := h]);
    Links(l3.next[h := n], l3.prev)
  }

  /** The first two writes of anv_leaks__map_delete and of
      anv_leaks__map_move: the neighbours of `e` point at each other. */
  function UnlinkL(l: Links, e: nat): (r: Links)
    requires e in l.next && e in l.prev
    ensures SameOutside(l, r, {l.next[e], l.prev[e]})
  {
    var l1 := Links(l.next, l.prev[l.next[e] := l.prev[e]]);
    Links(l1.next[l1.prev[e] := l1.next[e]], l1.prev)
  }

  /** anv_leaks__map_delete: unlink `e` and null its links. */
  function DeleteL(l: Links, e: nat): (r: Links)
    requires e in l.next && e in l.prev
  {
    var u := UnlinkL(l, e);
    Links(u.next[e := NULL], u.prev[e := NULL])
  }

  /** anv_leaks__map_move: unlink `e` and insert it right after head `h`. */
  function MoveL(l: Links, h: nat, e: nat): Links
    requires e in l.next && e in l.prev && h in l.next
  {
    AddL(UnlinkL(l, e), h, e)
  }

  /** anv_leaks__map_splice: put the entries of the list headed by `s` in
      front of those of head `h`; an empty list changes nothing.  The head
      `s` keeps its old links. */
  function SpliceL(l: Links, h: nat, s: nat): Links
    requires s in l.next && (l.next[s] != s ==> s in l.prev && h in l.next)
  {
    if l.next[s] == s then l
    else
      var first, last, at := l.next[s], l.prev[s], l.next[h];
      var l1 := Links(l.next, l.prev[first := h]);
      var l2 := Links(l1.next[h := first], l1.prev);
      var l3 := Links(l2.next[last := at], l2.prev);
      Links(l3.next, l3.prev[at := last])
  }

  // ---------------------------------------------------------------------
  // The helpers keep lists circular and doubly linked.

  /** Initialising a head makes it an empty list. */
  lemma InitRing(l: Links, h: nat)
    requires h != NULL
    ensures Ring(InitL(l, h), h, [])
  {
  }

  /** Adding `n` puts it first. */
  lemma AddRing(l: Links, h: nat, xs: seq<nat>, n: nat)
    requires Ring(l, h, xs) && n != NULL && n != h && n !in xs
    ensures h in l.next && Ring(AddL(l, h, n), h, [n] + xs)
  {
    var r := AddL(l, h, n);
    var ys := [n] + xs;
    forall i | 0 <= i < |ys|
      ensures ys[i] in r.next && r.next[ys[i]] == At(h, ys, i + 1) && ys[i] in r.prev && r.prev[ys[i]] == Before(h, ys, i)
    {
      AddEntry(l, h, xs, n, i);
    }
    ConsDistinct(n, xs);
    assert xs != [] ==> Last(h, ys) == Last(h, xs);
  }

  /** A node that is not in a list can go in front of it. */
  lemma ConsDistinct(n: nat, xs: seq<nat>)
    requires Distinct(xs) && n !in xs
    ensures Distinct([n] + xs)
  {
    var ys := [n] + xs;
    forall i, j | 0 <= i < j < |ys|
      ensures Differ(ys, i, j)
    {
      assert ys[j] == xs[j - 1];
      if i > 0 {
        assert ys[i] == xs[i - 1];
        DistinctAt(xs, i - 1, j - 1);
      } else {
        assert xs[j - 1] in xs;
      }
    }
  }

  /** After adding `n`, entry `i` of the new list points at its neighbours. */
  lemma AddEntry(l: Links, h: nat, xs: seq<nat>, n: nat, i: nat)
    requires Ring(l, h, xs) && n != NULL && n != h && n !in xs && i <= |xs|
    ensures h in l.next
    ensures var ys := [n] + xs;
      var r := AddL(l, h, n);
      ys[i] in r.next && r.next[ys[i]] == At(h, ys, i + 1) && ys[i] in r.prev && r.prev[ys[i]] == Before(h, ys, i)
  {
    var ys := [n] + xs;
    var r := AddL(l, h, n);
    assert r.next == l.next[n := l.next[h]][h := n] && r.prev == l.prev[l.next[h] := n][n := h];
    if i > 0 {
      assert ys[i] == xs[i - 1] && xs[i - 1] in xs;
      RingAt(l, h, xs, i - 1);
      assert i < |xs| ==> ys[i + 1] == xs[i];
      if i >= 2 {
        DistinctAt(xs, i - 1, 0);
        assert ys[i - 1] == xs[i - 2];
      }
    }
  }

  /** Adding to a list leaves a disjoint list unchanged. */
  lemma AddOther(l: Links, h: nat, xs: seq<nat>, n: nat, g: nat, ys: seq<nat>)
    requires Ring(l, h, xs) && Ring(l, g, ys)
    requires g != h && g !in xs && h !in ys && n != g && n !in ys
    requires forall k :: k in xs ==> k !in ys
    ensures h in l.next && Ring(AddL(l, h, n), g, ys)
  {
    assert l.next[h] == h || l.next[h] in xs;
    RingFrame(l, AddL(l, h, n), {h, n, l.next[h]}, g, ys);
  }

  lemma RemoveAt(xs: seq<nat>, i: nat)
    requires Distinct(xs) && i < |xs|
    ensures Distinct(xs[..i] + xs[i + 1..])
    ensures forall k :: k in xs[..i] + xs[i + 1..] <==> k in xs && k != xs[i]
    ensures xs[i] !in xs[..i] + xs[i + 1..]
    ensures forall j :: 0 <= j < |xs| - 1 ==> (xs[..i] + xs[i + 1..])[j] == if j < i then xs[j] else xs[j + 1]
  {
    var ys := xs[..i] + xs[i + 1..];
    assert forall j :: 0 <= j < |ys| ==> ys[j] == if j < i then xs[j] else xs[j + 1];
    forall a, b | 0 <= a < b < |ys|
      ensures Differ(ys, a, b)
    {
      DistinctAt(xs, if a < i then a else a + 1, if b < i then b else b + 1);
    }
    forall k ensures k in ys <==> k in xs && k != xs[i] {
      if k in xs && k != xs[i] {
        var j :| 0 <= j < |xs| && xs[j] == k;
        assert ys[if j < i then j else j - 1] == k;
      }
      if k in ys {
        var j :| 0 <= j < |ys| && ys[j] == k;
        DistinctAt(xs, if j < i then j else j + 1, i);
      }
    }
  }

  /** Unlinking entry `i` drops it from its list, touching only its two
      neighbours. */
  lemma UnlinkRing(l: Links, h: nat, xs: seq<nat>, i: nat)
    requires Ring(l, h, xs) && i < |xs|
    ensures xs[i] in l.next && xs[i] in l.prev
    ensures l.next[xs[i]] == At(h, xs, i + 1) && l.prev[xs[i]] == Before(h, xs, i)
    ensures Ring(UnlinkL(l, xs[i]), h, xs[..i] + xs[i + 1..])
  {
    var e := xs[i];
    var ys := xs[..i] + xs[i + 1..];
    RingAt(l, h, xs, i);
    var r := UnlinkL(l, e);
    RemoveAt(xs, i);
    var nx, pv := At(h, xs, i + 1), Before(h, xs, i);
    if i + 1 < |xs| {
      DistinctAt(xs, i + 1, i);
    }
    if i > 0 {
      DistinctAt(xs, i - 1, i);
    }
    assert nx != e && pv != e;
    assert r.next == l.next[pv := nx] && r.prev == l.prev[nx := pv];
    forall j | 0 <= j < |ys|
      ensures ys[j] in r.next && r.next[ys[j]] == At(h, ys, j + 1) && ys[j] in r.prev && r.prev[ys[j]] == Before(h, ys, j)
    {
      UnlinkEntry(l, h, xs, i, j);
    }
    UnlinkHead(l, h, xs, i);
    assert NULL !in ys && h !in ys;
  }

  /** After unlinking entry `i`, the head points at the remaining first and
      last entries. */
  lemma UnlinkHead(l: Links, h: nat, xs: seq<nat>, i: nat)
    requires Ring(l, h, xs) && i < |xs|
    ensures var ys := xs[..i] + xs[i + 1..];
      var r := Links(l.next[Before(h, xs, i) := At(h, xs, i + 1)], l.prev[At(h, xs, i + 1) := Before(h, xs, i)]);
      h in r.next && r.next[h] == At(h, ys, 0) && h in r.prev && r.prev[h] == Last(h, ys)
  {
    var ys := xs[..i] + xs[i + 1..];
    RemoveAt(xs, i);
    RingAt(l, h, xs, i);
    if i > 0 {
      assert xs[i - 1] != h && ys[0] == xs[0];
    } else if |ys| > 0 {
      assert ys[0] == xs[1];
    }
    if i + 1 < |xs| {
      assert xs[i + 1] != h && ys[|ys| - 1] == xs[|xs| - 1];
    } else if |ys| > 0 {
      assert ys[|ys| - 1] == xs[i - 1];
    }
  }

  /** After unlinking entry `i`, entry `j` of what remains points at its new
      neighbours. */
  lemma UnlinkEntry(l: Links, h: nat, xs: seq<nat>, i: nat, j: nat)
    requires Ring(l, h, xs) && i < |xs| && j < |xs| - 1
    ensures var ys := xs[..i] + xs[i + 1..];
      var r := Links(l.next[Before(h, xs, i) := At(h, xs, i + 1)], l.prev[At(h, xs, i + 1) := Before(h, xs, i)]);
      ys[j] in r.next && r.next[ys[j]] == At(h, ys, j + 1) && ys[j] in r.prev && r.prev[ys[j]] == Before(h, ys, j)
  {
    var ys := xs[..i] + xs[i + 1..];
    RemoveAt(xs, i);
    if j < i {
      RingAt(l, h, xs, j);
      assert ys[j] == xs[j];
      if j + 1 < i {
        DistinctAt(xs, j + 1, i);
        DistinctAt(xs, j, i - 1);
      }
      if i + 1 < |xs| {
        DistinctAt(xs, j, i + 1);
      }
    } else {
      RingAt(l, h, xs, j + 1);
      assert ys[j] == xs[j + 1];
      if j > i {
        DistinctAt(xs, j, i);
        DistinctAt(xs, j + 1, i + 1);
      }
      if i > 0 {
        DistinctAt(xs, j + 1, i - 1);
      }
    }
  }

  /** Deleting entry `i` drops it from its list and nulls its links. */
  lemma DeleteRing(l: Links, h: nat, xs: seq<nat>, i: nat)
    requires Ring(l, h, xs) && i < |xs|
    ensures xs[i] in l.next && xs[i] in l.prev
    ensures Ring(DeleteL(l, xs[i]), h, xs[..i] + xs[i + 1..])
    ensures DeleteL(l, xs[i]).next[xs[i]] == NULL && DeleteL(l, xs[i]).prev[xs[i]] == NULL
  {
    var e := xs[i];
    var ys := xs[..i] + xs[i + 1..];
    UnlinkRing(l, h, xs, i);
    RemoveAt(xs, i);
    var u := UnlinkL(l, e);
    NullFrame(u, e);
    assert e !in ys;
    RingFrame(u, DeleteL(l, e), {e}, h, ys);
  }

  /** Nulling the links of `e` changes no other node. */
  lemma NullFrame(u: Links, e: nat)
    ensures SameOutside(u, Links(u.next[e := NULL], u.prev[e := NULL]), {e})
  {
  }

  /** Moving entry `i` of one list to the front of a disjoint list. */
  lemma MoveRing(l: Links, h: nat, xs: seq<nat>, i: nat, g: nat, ys: seq<nat>)
    requires Ring(l, h, xs) && Ring(l, g, ys) && i < |xs|
    requires g != h && g !in xs && h !in ys && forall k :: k in xs ==> k !in ys
    ensures xs[i] in l.next && xs[i] in l.prev && g in l.next
    ensures Ring(MoveL(l, g, xs[i]), h, xs[..i] + xs[i + 1..])
    ensures Ring(MoveL(l, g, xs[i]), g, [xs[i]] + ys)
  {
    var e := xs[i];
    var rest := xs[..i] + xs[i + 1..];
    UnlinkRing(l, h, xs, i);
    RemoveAt(xs, i);
    var u := UnlinkL(l, e);
    assert l.next[e] == h || l.next[e] in xs;
    assert l.prev[e] == h || l.prev[e] in xs;
    RingFrame(l, u, {l.next[e], l.prev[e]}, g, ys);
    AddRing(u, g, ys, e);
    AddOther(u, g, ys, e, h, rest);
  }

  /** Splicing a non-empty list in front of a disjoint list. */
  lemma SpliceRing(l: Links, h: nat, xs: seq<nat>, s: nat, ys: seq<nat>)
    requires Ring(l, h, xs) && Ring(l, s, ys) && ys != []
    requires s != h && s !in xs && h !in ys && forall k :: k in xs ==> k !in ys
    ensures s in l.next && s in l.prev && h in l.next
    ensures Ring(SpliceL(l, h, s), h, ys + xs)
  {
    var first, last, at := ys[0], ys[|ys| - 1], At(h, xs, 0);
    var r := SpliceL(l, h, s);
    var zs := ys + xs;
    var n := |ys|;
    assert r.next == l.next[h := first][last := at] && r.prev == l.prev[first := h][at := last];
    forall j | 0 <= j < |zs|
      ensures zs[j] in r.next && r.next[zs[j]] == At(h, zs, j + 1) && zs[j] in r.prev && r.prev[zs[j]] == Before(h, zs, j)
    {
      SpliceEntry(l, h, xs, s, ys, j);
    }
    SpliceDistinct(xs, ys);
  }

  /** After a splice, entry `j` of the joined list points at its neighbours. */
  lemma SpliceEntry(l: Links, h: nat, xs: seq<nat>, s: nat, ys: seq<nat>, j: nat)
    requires Ring(l, h, xs) && Ring(l, s, ys) && ys != []
    requires s != h && s !in xs && h !in ys && forall k :: k in xs ==> k !in ys
    requires j < |ys| + |xs|
    ensures var zs := ys + xs;
      var r := Links(l.next[h := ys[0]][ys[|ys| - 1] := At(h, xs, 0)], l.prev[ys[0] := h][At(h, xs, 0) := ys[|ys| - 1]]);
      zs[j] in r.next && r.next[zs[j]] == At(h, zs, j + 1) && zs[j] in r.prev && r.prev[zs[j]] == Before(h, zs, j)
  {
    var n := |ys|;
    var zs := ys + xs;
    var first, last, at := ys[0], ys[n - 1], At(h, xs, 0);
    assert at == h || at in xs;
    if j < n {
      assert zs[j] == ys[j];
      RingAt(l, s, ys, j);
      if j < n - 1 {
        DistinctAt(ys, j, n - 1);
        assert zs[j + 1] == ys[j + 1];
      }
      if j > 0 {
        DistinctAt(ys, j, 0);
        assert zs[j - 1] == ys[j - 1];
      }
      assert ys[j] in ys;
      assert ys[j] !in xs && ys[j] != h;
    } else {
      assert zs[j] == xs[j - n];
      RingAt(l, h, xs, j - n);
      assert xs[j - n] != h && xs[j - n] in xs;
      assert xs[j - n] !in ys;
      if j > n {
        DistinctAt(xs, j - n, 0);
        assert zs[j - 1] == xs[j - n - 1];
      }
      assert j + 1 < |zs| ==> zs[j + 1] == xs[j - n + 1];
    }
  }

  /** Two disjoint lists of distinct entries join into one. */
  lemma SpliceDistinct(xs: seq<nat>, ys: seq<nat>)
    requires Distinct(xs) && Distinct(ys) && forall k :: k in xs ==> k !in ys
    ensures Distinct(ys + xs)
  {
    var zs := ys + xs;
    var n := |ys|;
    forall a, b | 0 <= a < b < |zs| ensures Differ(zs, a, b) {
      if b < n {
        assert zs[a] == ys[a] && zs[b] == ys[b];
        DistinctAt(ys, a, b);
      } else if a >= n {
        assert zs[a] == xs[a - n] && zs[b] == xs[b - n];
        DistinctAt(xs, a - n, b - n);
      } else {
        assert zs[a] == ys[a] && zs[a] in ys && zs[b] == xs[b - n] && zs[b] in xs;
      }
    }
  }

  // ---------------------------------------------------------------------
  // The tracker.

  /** The records a list holds, in list order. */
  function RecordsOf(payload: map<nat, Record>, order: seq<nat>): (rs: seq<Record>)
    requires forall k :: k in order ==> k in payload
    ensures |rs| == |order|
  {
    if order == [] then [] else [payload[order[0]]] + RecordsOf(payload, order[1..])
  }

  /** Entry `i` of the list carries the record of node `order[i]`. */
  lemma {:induction false} RecordsAt(payload: map<nat, Record>, order: seq<nat>, i: nat)
    requires (forall k :: k in order ==> k in payload) && i < |order|
    ensures RecordsOf(payload, order)[i] == payload[order[i]]
  {
    if i > 0 {
      assert forall k :: k in order[1..] ==> k in order;
      RecordsAt(payload, order[1..], i - 1);
    }
  }

  lemma RecordsAll(payload: map<nat, Record>, order: seq<nat>)
    requires forall k :: k in order ==> k in payload
    ensures forall i :: 0 <= i < |order| ==> RecordsOf(payload, order)[i] == payload[order[i]]
  {
    forall i | 0 <= i < |order|
      ensures RecordsOf(payload, order)[i] == payload[order[i]]
    {
      RecordsAt(payload, order, i);
    }
  }

  lemma RecordsRemove(payload: map<nat, Record>, order: seq<nat>, k: nat)
    requires (forall x :: x in order ==> x in payload) && k < |order|
    ensures forall x :: x in order[..k] + order[k + 1..] ==> x in order
    ensures RecordsOf(payload, order[..k] + order[k + 1..]) == RecordsOf(payload, order)[..k] + RecordsOf(payload, order)[k + 1..]
  {
    var o2 := order[..k] + order[k + 1..];
    assert forall j :: 0 <= j < |o2| ==> o2[j] == if j < k then order[j] else order[j + 1];
    assert forall x :: x in o2 ==> x in order;
    RecordsAll(payload, order);
    RecordsAll(payload, o2);
  }

  lemma RecordsUpdate(payload: map<nat, Record>, order: seq<nat>, k: nat, r: Record)
    requires (forall x :: x in order ==> x in payload) && k < |order| && Distinct(order)
    ensures RecordsOf(payload[order[k] := r], order) == RecordsOf(payload, order)[k := r]
  {
    forall j | 0 <= j < |order| && j != k
      ensures order[j] != order[k]
    {
      DistinctAt(order, j, k);
    }
    RecordsAll(payload, order);
    RecordsAll(payload[order[k] := r], order);
  }

  lemma RecordsCons(payload: map<nat, Record>, order: seq<nat>, n: nat, r: Record)
    requires (forall x :: x in order ==> x in payload) && n !in order
    ensures RecordsOf(payload[n := r], [n] + order) == [r] + RecordsOf(payload, order)
  {
    assert forall j :: 0 <= j < |order| ==> ([n] + order)[j + 1] == order[j];
    RecordsAll(payload, order);
    RecordsAll(payload[n := r], [n] + order);
  }

  /** anv_leaks_free_ of this version: the free is counted before the
      search, so it is counted even for NULL or an unknown block; a tracked
      block is then counted as freed with its size and its node deleted. */
  function FreeSpecCounted(l: Ledger, mem: nat): Ledger
  {
    var counted := l.stats.(freeCount := Add32(l.stats.freeCount, 1));
    match Find(l.records, mem)
    case None => Ledger(l.records, counted)
    case Some(i) =>
      Ledger(l.records[..i] + l.records[i + 1..],
             counted.(totalFreed := Add32(l.stats.totalFreed, l.records[i].size)))
  }

  /** On a tracked block it is the free of the newer version, so the ledger
      stays balanced. */
  lemma FreeCountedTracked(l: Ledger, mem: nat)
    requires Find(l.records, mem).Some?
    ensures FreeSpecCounted(l, mem) == FreeSpec(l, mem)
    ensures Balanced(l) ==> Balanced(FreeSpecCounted(l, mem))
  {
    if Balanced(l) {
      FreeBalanced(l, mem);
    }
  }

  /** On NULL or an unknown block it breaks the count of live records. */
  lemma FreeCountedUnknown(l: Ledger, mem: nat)
    requires Balanced(l) && Find(l.records, mem).None?
    ensures !Balanced(FreeSpecCounted(l, mem))
  {
    var s := l.stats;
    NegMod(s.freeCount + 1, s.mallocCount + s.callocCount);
    CancelMod(s.mallocCount + s.callocCount - s.freeCount, -1);
  }

  /** The list at HEAD holds the nodes `order`, each with a payload and each
      below the next node the allocator hands out. */
  ghost predicate Inv(l: Links, payload: map<nat, Record>, nextNode: nat, order: seq<nat>)
  {
    Ring(l, HEAD, order) && HEAD < nextNode
    && (forall k :: k in order ==> k in payload && k < nextNode)
  }

  /** Adding a record node keeps the invariant and puts the record first. */
  lemma AddStep(l: Links, payload: map<nat, Record>, nextNode: nat, order: seq<nat>, r: Record)
    requires Inv(l, payload, nextNode, order)
    ensures HEAD in l.next
    ensures Inv(AddL(l, HEAD, nextNode), payload[nextNode := r], nextNode + 1, [nextNode] + order)
    ensures RecordsOf(payload[nextNode := r], [nextNode] + order) == [r] + RecordsOf(payload, order)
  {
    AddRing(l, HEAD, order, nextNode);
    RecordsCons(payload, order, nextNode, r);
  }

  /** Deleting the node at position `k` keeps the invariant and drops its
      record. */
  lemma DeleteStep(l: Links, payload: map<nat, Record>, nextNode: nat, order: seq<nat>, k: nat)
      returns (rest: seq<nat>)
    requires Inv(l, payload, nextNode, order) && k < |order|
    ensures order[k] in l.next && order[k] in l.prev
    ensures rest == order[..k] + order[k + 1..]
    ensures Inv(DeleteL(l, order[k]), payload, nextNode, rest)
    ensures RecordsOf(payload, rest) == RecordsOf(payload, order)[..k] + RecordsOf(payload, order)[k + 1..]
  {
    rest := order[..k] + order[k + 1..];
    DeleteRing(l, HEAD, order, k);
    RecordsRemove(payload, order, k);
  }

  /** Rewriting the record of the node at position `k` keeps the invariant. */
  lemma UpdateStep(l: Links, payload: map<nat, Record>, nextNode: nat, order: seq<nat>, k: nat, r: Record)
    requires Inv(l, payload, nextNode, order) && k < |order|
    ensures Inv(l, payload[order[k] := r], nextNode, order)
    ensures RecordsOf(payload[order[k] := r], order) == RecordsOf(payload, order)[k := r]
  {
    RecordsUpdate(payload, order, k, r);
  }

  /** anv_leaks__settings of this version. */
  class ListTracker {
    var links: Links
    var payload: map<nat, Record>
    var stats: Stats
    /** The next node the system allocator hands out for a record. */
    var nextNode: nat
    ghost var order: seq<nat>

    ghost predicate Valid()
      reads this
    {
      Inv(links, payload, nextNode, order)
    }

    ghost function State(): Ledger
      reads this
      requires Valid()
    {
      Ledger(RecordsOf(payload, order), stats)
    }

    constructor ()
      ensures Valid() && State() == Empty()
    {
      links := InitL(Links(map[], map[]), HEAD);
      payload := map[];
      stats := Stats(0, 0, 0, 0, 0, 0);
      nextNode := HEAD + 1;
      order := [];
      InitRing(Links(map[], map[]), HEAD);
    }

    /** anv_leaks_init: the head becomes an empty list again. */
    method Init()
      requires Valid()
      modifies this
      ensures Valid() && State() == Empty()
    {
      InitRing(links, HEAD);
      links := InitL(links, HEAD);
      stats := Stats(0, 0, 0, 0, 0, 0);
      order := [];
    }

    /** anv_leaks_get_stats. */
    method GetStats() returns (out: Stats)
      requires Valid()
      ensures out == State().stats
    {
      out := stats;
    }

    /** anv_leaks__map_add of a new record node after the head. */
    method AddRecord(r: Record)
      requires Valid()
      modifies this
      ensures Valid() && State().records == [r] + old(State().records)
      ensures stats == old(stats)
    {
      var node := nextNode;
      AddStep(links, payload, nextNode, order, r);
      links := AddL(links, HEAD, node);
      payload := payload[node := r];
      nextNode := nextNode + 1;
      order := [node] + order;
    }

    /** anv_leaks_malloc_ (size != 0 is asserted); `mem` is what malloc
        returned. */
    method Malloc(size: nat, file: string, line: int, mem: nat) returns (p: nat)
      requires Valid() && size != 0 && size < U64
      modifies this
      ensures Valid() && p == mem
      ensures State() == MallocSpec(old(State()), size, file, line, mem)
    {
      if mem == 0 {
        return 0;
      }
      AddRecord(Record(mem, size, file, line));
      stats := stats.(totalAllocated := (stats.totalAllocated + size) % U32,
                      mallocCount := (stats.mallocCount + 1) % U32);
      p := mem;
    }

    /** anv_leaks_calloc_ (size != 0 is asserted). */
    method Calloc(num: nat, size: nat, file: string, line: int, mem: nat) returns (p: nat)
      requires Valid() && size != 0 && size < U64 && num < U64
      modifies this
      ensures Valid() && p == mem
      ensures State() == CallocSpec(old(State()), num, size, file, line, mem)
    {
      var n := (num * size) % U64;
      AddRecord(Record(mem, n, file, line));
      stats := stats.(totalAllocated := (stats.totalAllocated + n) % U32,
                      callocCount := (stats.callocCount + 1) % U32);
      p := mem;
    }

    /** The anv_leaks__map_foreach search: the position of the first node of
        block `mem` after the head, found by following `next`. */
    method Search(mem: nat) returns (pos: nat, ghost k: nat)
      requires Valid()
      ensures k <= |order| && pos == At(HEAD, order, k)
      ensures (pos == HEAD) == (k == |order|)
      ensures k < |order| ==> Find(State().records, mem) == Some(k)
      ensures k == |order| ==> Find(State().records, mem).None?
    {
      ghost var rs := RecordsOf(payload, order);
      pos := links.next[HEAD];
      k := 0;
      while pos != HEAD
        invariant k <= |order| && pos == At(HEAD, order, k)
        invariant forall j :: 0 <= j < k ==> rs[j].block != mem
        decreases |order| - k
      {
        assert pos == order[k];
        RecordsAt(payload, order, k);
        if payload[pos].block == mem {
          return;
        }
        RingAt(links, HEAD, order, k);
        pos := links.next[pos];
        k := k + 1;
      }
    }

    /** anv_leaks_get_leaks: one entry per node, from head->next round to
        the head. */
    method GetLeaks() returns (arr: Option<seq<LeakInfo>>, sz: nat)
      requires Valid()
      ensures (arr, sz) == LeaksSpec(State())
    {
      var delta := (stats.mallocCount + stats.callocCount - stats.freeCount) % U32;
      if delta == 0 {
        return None, 0;
      }
      ghost var rs := RecordsOf(payload, order);
      var out: seq<LeakInfo> := [];
      var pos := links.next[HEAD];
      ghost var k := 0;
      while pos != HEAD
        invariant k <= |order| && pos == At(HEAD, order, k)
        invariant |out| == k && forall j :: 0 <= j < k ==> out[j] == InfoOf(rs[j])
        decreases |order| - k
      {
        assert pos == order[k];
        RecordsAt(payload, order, k);
        out := out + [InfoOf(payload[pos])];
        RingAt(links, HEAD, order, k);
        pos := links.next[pos];
        k := k + 1;
      }
      assert out == Infos(rs);
      return Some(out), delta;
    }

    /** anv_leaks_free_. */
    method Free(mem: nat)
      requires Valid()
      modifies this
      ensures Valid()
      ensures State() == FreeSpecCounted(old(State()), mem)
    {
      ghost var before := State();
      stats := stats.(freeCount := Add32(stats.freeCount, 1));
      ghost var counted := stats;
      var pos, k := Search(mem);
      if pos == HEAD {
        assert State() == Ledger(before.records, counted);
        return;
      }
      RecordsAt(payload, order, k);
      assert payload[pos] == before.records[k];
      stats := stats.(totalFreed := Add32(stats.totalFreed, payload[pos].size));
      ghost var freed := stats;
      DeleteRecord(pos, k);
      assert State() == Ledger(before.records[..k] + before.records[k + 1..], freed);
    }

    /** anv_leaks__map_delete of the node at position `k`. */
    method DeleteRecord(pos: nat, ghost k: nat)
      requires Valid() && k < |order| && pos == order[k]
      modifies this
      ensures Valid() && stats == old(stats)
      ensures State().records == old(State().records[..k] + State().records[k + 1..])
    {
      ghost var rest := DeleteStep(links, payload, nextNode, order, k);
      links, order := DeleteL(links, pos), rest;
    }

    /** anv_leaks_realloc_ (size != 0 is asserted); `newMem` is what realloc,
        or malloc for NULL, returned. */
    method Realloc(mem: nat, size: nat, file: string, line: int, newMem: nat) returns (p: nat)
      requires Valid() && size != 0 && size < U64
      modifies this
      ensures Valid() && p == newMem
      ensures State() == ReallocSpec(old(State()), mem, size, file, line, newMem)
    {
      if mem == 0 {
        p := Malloc(size, file, line, newMem);
        return;
      }
      ghost var before := State();
      var pos, k := Search(mem);
      var oldSize := 0;
      if pos != HEAD {
        RecordsAt(payload, order, k);
        assert payload[pos] == before.records[k];
        oldSize := payload[pos].size;
        UpdateRecord(pos, k, newMem, size);
        assert State().records == before.records[k := before.records[k].(block := newMem, size := size)];
      }
      assert pos == HEAD ==> State().records == before.records;
      stats := stats.(totalAllocated := Add32(stats.totalAllocated, (size - oldSize) % U64),
                      reallocCount := Add32(stats.reallocCount, 1));
      p := newMem;
    }

    /** The record at position `k` takes a new block and size. */
    method UpdateRecord(pos: nat, ghost k: nat, block: nat, size: nat)
      requires Valid() && k < |order| && pos == order[k]
      modifies this
      ensures Valid() && stats == old(stats)
      ensures State().records == old(State().records[k := State().records[k].(block := block, size := size)])
    {
      RecordsAt(payload, order, k);
      UpdateStep(links, payload, nextNode, order, k, payload[pos].(block := block, size := size));
      payload := payload[pos := payload[pos].(block := block, size := size)];
    }
  }
}
