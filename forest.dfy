/**
 * Trees of blocks, the shape shared by the hierarchical allocators of
 * repackages/halloc.h and repackages/stb_alloc.h.  A node is a block, its
 * `kids` are the blocks in its children list in list order (the head
 * first), and `data` is what the allocator keeps per block.  Ids stand for
 * the blocks' addresses.
 */
module Forest {
  import opened Bytes

  datatype Tree<D> = Node(id: nat, data: D, kids: seq<Tree<D>>)

  // ---------------------------------------------------------------------
  // Forest vocabulary.

  function Ids<D>(t: Tree<D>): set<nat>
    decreases t
  {
    {t.id} + IdsAll(t.kids)
  }

  function IdsAll<D>(ts: seq<Tree<D>>): set<nat>
    decreases ts
  {
    if ts == [] then {} else Ids(ts[0]) + IdsAll(ts[1..])
  }

  /** The ids of the unlisted blocks. */
  function RootIds<D>(ts: seq<Tree<D>>): set<nat>
  {
    set i | 0 <= i < |ts| :: ts[i].id
  }

  /** No block appears twice. */
  predicate UniqueT<D>(t: Tree<D>)
    decreases t
  {
    t.id !in IdsAll(t.kids) && UniqueAll(t.kids)
  }

  predicate UniqueAll<D>(ts: seq<Tree<D>>)
    decreases ts
  {
    ts == [] || (UniqueT(ts[0]) && Ids(ts[0]) !! IdsAll(ts[1..]) && UniqueAll(ts[1..]))
  }

  /** hlist_item_listed: the block is in some parent's children list. */
  predicate Listed<D>(ts: seq<Tree<D>>, x: nat)
  {
    x in IdsAll(ts) && x !in RootIds(ts)
  }

  function FindT<D>(t: Tree<D>, x: nat): Option<Tree<D>>
    decreases t
  {
    if t.id == x then Some(t) else FindAll(t.kids, x)
  }

  /** The subtree of block `x`. */
  function FindAll<D>(ts: seq<Tree<D>>, x: nat): Option<Tree<D>>
    decreases ts
  {
    if ts == [] then None
    else if FindT(ts[0], x).Some? then FindT(ts[0], x)
    else FindAll(ts[1..], x)
  }

  lemma {:induction false} FindTFacts<D>(t: Tree<D>, x: nat)
    ensures FindT(t, x).Some? <==> x in Ids(t)
    ensures FindT(t, x).Some? ==> FindT(t, x).value.id == x && Ids(FindT(t, x).value) <= Ids(t)
    ensures FindT(t, x).Some? && UniqueT(t) ==> UniqueT(FindT(t, x).value)
    decreases t, 1
  {
    if t.id != x {
      FindAllFacts(t.kids, x);
    }
  }

  /** Find succeeds exactly on the forest's ids and yields that block's
      subtree. */
  lemma {:induction false} FindAllFacts<D>(ts: seq<Tree<D>>, x: nat)
    ensures FindAll(ts, x).Some? <==> x in IdsAll(ts)
    ensures FindAll(ts, x).Some? ==> FindAll(ts, x).value.id == x && Ids(FindAll(ts, x).value) <= IdsAll(ts)
    ensures FindAll(ts, x).Some? && UniqueAll(ts) ==> UniqueT(FindAll(ts, x).value)
    decreases ts, 0
  {
    if ts != [] {
      FindTFacts(ts[0], x);
      FindAllFacts(ts[1..], x);
    }
  }

  lemma {:induction false} IdsAllAppend<D>(ts: seq<Tree<D>>, us: seq<Tree<D>>)
    ensures IdsAll(ts + us) == IdsAll(ts) + IdsAll(us)
    decreases ts
  {
    if ts == [] {
      assert ts + us == us;
    } else {
      assert (ts + us)[0] == ts[0];
      assert (ts + us)[1..] == ts[1..] + us;
      IdsAllAppend(ts[1..], us);
    }
  }

  /** The subtree of block `x`, which is in the forest. */
  function Subtree<D>(ts: seq<Tree<D>>, x: nat): (t: Tree<D>)
    requires x in IdsAll(ts)
    ensures FindAll(ts, x) == Some(t) && t.id == x && Ids(t) <= IdsAll(ts)
    ensures UniqueAll(ts) ==> UniqueT(t)
  {
    FindAllFacts(ts, x);
    FindAll(ts, x).value
  }

  lemma {:induction false} FindAllAppend<D>(ts: seq<Tree<D>>, t: Tree<D>, x: nat)
    ensures FindAll(ts + [t], x) == if FindAll(ts, x).Some? then FindAll(ts, x) else FindT(t, x)
    decreases ts
  {
    if ts == [] {
      assert ([] + [t])[1..] == [];
    } else {
      assert (ts + [t])[1..] == ts[1..] + [t];
      FindAllAppend(ts[1..], t, x);
    }
  }

  lemma {:induction false} UniqueAppend<D>(ts: seq<Tree<D>>, t: Tree<D>)
    requires UniqueAll(ts) && UniqueT(t) && Ids(t) !! IdsAll(ts)
    ensures UniqueAll(ts + [t])
    decreases ts
  {
    if ts == [] {
      assert ([] + [t])[1..] == [];
    } else {
      assert (ts + [t])[1..] == ts[1..] + [t];
      UniqueAppend(ts[1..], t);
      IdsAllAppend(ts[1..], [t]);
      assert IdsAll([t]) == Ids(t) by {
        assert [t][1..] == [];
      }
    }
  }

  // ---------------------------------------------------------------------
  // Removing a subtree (hlist_del of its root, or the release of it).

  function RemoveT<D>(t: Tree<D>, x: nat): Tree<D>
    decreases t
  {
    t.(kids := RemoveAll(t.kids, x))
  }

  /** The forest without the subtree of block `x`. */
  function RemoveAll<D>(ts: seq<Tree<D>>, x: nat): seq<Tree<D>>
    decreases ts
  {
    if ts == [] then []
    else if ts[0].id == x then RemoveAll(ts[1..], x)
    else [RemoveT(ts[0], x)] + RemoveAll(ts[1..], x)
  }

  lemma {:induction false} RemoveTAbsent<D>(t: Tree<D>, x: nat)
    requires x !in Ids(t)
    ensures RemoveT(t, x) == t
    decreases t, 1
  {
    RemoveAllAbsent(t.kids, x);
  }

  /** Removing a block that is not there changes nothing. */
  lemma {:induction false} RemoveAllAbsent<D>(ts: seq<Tree<D>>, x: nat)
    requires x !in IdsAll(ts)
    ensures RemoveAll(ts, x) == ts
    decreases ts, 0
  {
    if ts != [] {
      RemoveTAbsent(ts[0], x);
      RemoveAllAbsent(ts[1..], x);
      assert ts == [ts[0]] + ts[1..];
    }
  }

  lemma {:induction false} RemoveTFacts<D>(t: Tree<D>, x: nat)
    requires UniqueT(t) && t.id != x && x in Ids(t)
    ensures UniqueT(RemoveT(t, x)) && RemoveT(t, x).id == t.id
    ensures FindT(t, x).Some? && Ids(RemoveT(t, x)) == Ids(t) - Ids(FindT(t, x).value)
    decreases t, 1
  {
    FindAllFacts(t.kids, x);
    RemoveAllFacts(t.kids, x);
  }

  /** Removing block `x` removes exactly the ids of its subtree and keeps
      the forest free of duplicates. */
  lemma {:induction false} RemoveAllFacts<D>(ts: seq<Tree<D>>, x: nat)
    requires UniqueAll(ts) && x in IdsAll(ts)
    ensures UniqueAll(RemoveAll(ts, x))
    ensures IdsAll(RemoveAll(ts, x)) == IdsAll(ts) - Ids(Subtree(ts, x))
    ensures RootIds(RemoveAll(ts, x)) == RootIds(ts) - {x}
    decreases ts, 0
  {
    FindAllFacts(ts, x);
    var r := RemoveAll(ts, x);
    if ts[0].id == x {
      RemoveAllAbsent(ts[1..], x);
      assert FindT(ts[0], x) == Some(ts[0]);
      RootIdsCons(ts[0], ts[1..]);
      assert ts == [ts[0]] + ts[1..];
      RootIdsIn(ts[1..]);
    } else {
      var rest := RemoveAll(ts[1..], x);
      FindTFacts(ts[0], x);
      if x in Ids(ts[0]) {
        RemoveTFacts(ts[0], x);
        RemoveAllAbsent(ts[1..], x);
        assert rest == ts[1..];
        RootIdsIn(ts[1..]);
      } else {
        RemoveTAbsent(ts[0], x);
        RemoveAllFacts(ts[1..], x);
      }
      assert r == [RemoveT(ts[0], x)] + rest;
      assert r[1..] == rest;
      RootIdsCons(RemoveT(ts[0], x), rest);
      RootIdsCons(ts[0], ts[1..]);
      assert ts == [ts[0]] + ts[1..];
    }
  }

  lemma {:induction false} RemoveTKeeps<D>(t: Tree<D>, x: nat, y: nat)
    requires UniqueT(t) && t.id != x && x in Ids(t) && y in Ids(t)
    requires FindT(t, x).Some? && y !in Ids(FindT(t, x).value)
    ensures FindT(t, y).Some? && FindT(RemoveT(t, x), y).Some?
    ensures FindT(RemoveT(t, x), y).value.data == FindT(t, y).value.data
    decreases t, 1
  {
    FindTFacts(t, y);
    if t.id != y {
      RemoveAllKeeps(t.kids, x, y);
    }
  }

  /** Removing the subtree of `x` leaves every block outside it in place,
      with its own data. */
  lemma {:induction false} RemoveAllKeeps<D>(ts: seq<Tree<D>>, x: nat, y: nat)
    requires UniqueAll(ts) && x in IdsAll(ts) && y in IdsAll(ts) && y !in Ids(Subtree(ts, x))
    ensures y in IdsAll(RemoveAll(ts, x))
    ensures Subtree(RemoveAll(ts, x), y).data == Subtree(ts, y).data
    decreases ts, 0
  {
    RemoveAllFacts(ts, x);
    FindAllFacts(ts, x);
    FindAllFacts(ts, y);
    FindTFacts(ts[0], x);
    FindTFacts(ts[0], y);
    var rest := ts[1..];
    var r := RemoveAll(ts, x);
    FindAllFacts(r, y);
    if ts[0].id == x {
      RemoveAllAbsent(rest, x);
    } else if x in Ids(ts[0]) {
      RemoveAllAbsent(rest, x);
      RemoveTFacts(ts[0], x);
      assert r == [RemoveT(ts[0], x)] + rest && r[1..] == rest;
      FindTFacts(RemoveT(ts[0], x), y);
      if y in Ids(ts[0]) {
        RemoveTKeeps(ts[0], x, y);
      }
    } else {
      RemoveTAbsent(ts[0], x);
      assert r[1..] == RemoveAll(rest, x);
      if y !in Ids(ts[0]) {
        RemoveAllKeeps(rest, x, y);
      }
    }
  }

  lemma RootIdsCons<D>(t: Tree<D>, ts: seq<Tree<D>>)
    ensures RootIds([t] + ts) == {t.id} + RootIds(ts)
  {
    var r := [t] + ts;
    forall y | y in RootIds(r) ensures y in {t.id} + RootIds(ts) {
      var i :| 0 <= i < |r| && r[i].id == y;
      if i > 0 {
        assert ts[i - 1].id == y;
      }
    }
    forall y | y in RootIds(ts) ensures y in RootIds(r) {
      var i :| 0 <= i < |ts| && ts[i].id == y;
      assert r[i + 1].id == y;
    }
    assert r[0].id == t.id;
  }

  lemma RootIdsIn<D>(ts: seq<Tree<D>>)
    ensures RootIds(ts) <= IdsAll(ts)
  {
    forall y | y in RootIds(ts) ensures y in IdsAll(ts) {
      var i :| 0 <= i < |ts| && ts[i].id == y;
      IdsAllMember(ts, i);
    }
  }

  /** A root is one of the forest's ids. */
  lemma {:induction false} IdsAllMember<D>(ts: seq<Tree<D>>, i: nat)
    requires i < |ts|
    ensures Ids(ts[i]) <= IdsAll(ts)
    decreases |ts|
  {
    if i > 0 {
      IdsAllMember(ts[1..], i - 1);
    }
  }

  // ---------------------------------------------------------------------
  // Adding a child at the head of a parent's list (hlist_add).

  function AddT<D>(t: Tree<D>, p: nat, c: Tree<D>): Tree<D>
    decreases t
  {
    if t.id == p then t.(kids := [c] + t.kids) else t.(kids := AddAll(t.kids, p, c))
  }

  /** The forest with `c` put at the front of the children of block `p`. */
  function AddAll<D>(ts: seq<Tree<D>>, p: nat, c: Tree<D>): seq<Tree<D>>
    decreases ts
  {
    if ts == [] then [] else [AddT(ts[0], p, c)] + AddAll(ts[1..], p, c)
  }

  lemma {:induction false} AddTAbsent<D>(t: Tree<D>, p: nat, c: Tree<D>)
    requires p !in Ids(t)
    ensures AddT(t, p, c) == t
    decreases t, 1
  {
    AddAllAbsent(t.kids, p, c);
  }

  lemma {:induction false} AddAllAbsent<D>(ts: seq<Tree<D>>, p: nat, c: Tree<D>)
    requires p !in IdsAll(ts)
    ensures AddAll(ts, p, c) == ts
    decreases ts, 0
  {
    if ts != [] {
      AddTAbsent(ts[0], p, c);
      AddAllAbsent(ts[1..], p, c);
      assert ts == [ts[0]] + ts[1..];
    }
  }

  lemma {:induction false} AddTFacts<D>(t: Tree<D>, p: nat, c: Tree<D>)
    requires UniqueT(t) && UniqueT(c) && Ids(c) !! Ids(t) && p in Ids(t)
    ensures UniqueT(AddT(t, p, c)) && AddT(t, p, c).id == t.id
    ensures Ids(AddT(t, p, c)) == Ids(t) + Ids(c)
    ensures FindT(t, p).Some? && FindT(AddT(t, p, c), p) == Some(FindT(t, p).value.(kids := [c] + FindT(t, p).value.kids))
    decreases t, 1
  {
    if t.id == p {
      assert ([c] + t.kids)[1..] == t.kids;
    } else {
      AddAllFacts(t.kids, p, c);
    }
  }

  /** Adding `c` under `p` adds exactly the ids of `c`, keeps the forest
      free of duplicates, and makes `c` the first child of `p`. */
  lemma {:induction false} AddAllFacts<D>(ts: seq<Tree<D>>, p: nat, c: Tree<D>)
    requires UniqueAll(ts) && UniqueT(c) && Ids(c) !! IdsAll(ts) && p in IdsAll(ts)
    ensures UniqueAll(AddAll(ts, p, c))
    ensures IdsAll(AddAll(ts, p, c)) == IdsAll(ts) + Ids(c)
    ensures RootIds(AddAll(ts, p, c)) == RootIds(ts)
    ensures FindAll(AddAll(ts, p, c), p) == Some(Subtree(ts, p).(kids := [c] + Subtree(ts, p).kids))
    decreases ts, 0
  {
    var r := AddAll(ts, p, c);
    assert r[1..] == AddAll(ts[1..], p, c);
    FindTFacts(ts[0], p);
    if p in Ids(ts[0]) {
      AddTFacts(ts[0], p, c);
      AddAllAbsent(ts[1..], p, c);
      FindTFacts(r[0], p);
    } else {
      AddTAbsent(ts[0], p, c);
      AddAllFacts(ts[1..], p, c);
      FindTFacts(r[0], p);
    }
    AddAllRootIds(ts, p, c);
    RootIdsSame(ts, r);
  }

  /** Two forests whose roots have the same ids, position by position. */
  lemma RootIdsSame<D>(ts: seq<Tree<D>>, us: seq<Tree<D>>)
    requires |ts| == |us| && forall i :: 0 <= i < |ts| ==> ts[i].id == us[i].id
    ensures RootIds(ts) == RootIds(us)
  {
    forall y | y in RootIds(ts) ensures y in RootIds(us) {
      var i :| 0 <= i < |ts| && ts[i].id == y;
      assert us[i].id == y;
    }
    forall y | y in RootIds(us) ensures y in RootIds(ts) {
      var i :| 0 <= i < |us| && us[i].id == y;
      assert ts[i].id == y;
    }
  }

  lemma {:induction false} AddAllRootIds<D>(ts: seq<Tree<D>>, p: nat, c: Tree<D>)
    ensures |AddAll(ts, p, c)| == |ts| && forall i :: 0 <= i < |ts| ==> AddAll(ts, p, c)[i].id == ts[i].id
    decreases ts
  {
    if ts != [] {
      AddAllRootIds(ts[1..], p, c);
    }
  }

  // ---------------------------------------------------------------------
  // Replacing a block's data (realloc).

  function SetDataT<D>(t: Tree<D>, x: nat, d: D): Tree<D>
    decreases t
  {
    if t.id == x then t.(data := d) else t.(kids := SetDataAll(t.kids, x, d))
  }

  function SetDataAll<D>(ts: seq<Tree<D>>, x: nat, d: D): seq<Tree<D>>
    decreases ts
  {
    if ts == [] then [] else [SetDataT(ts[0], x, d)] + SetDataAll(ts[1..], x, d)
  }

  lemma {:induction false} SetDataTAbsent<D>(t: Tree<D>, x: nat, d: D)
    requires x !in Ids(t)
    ensures SetDataT(t, x, d) == t
    decreases t, 1
  {
    SetDataAllAbsent(t.kids, x, d);
  }

  lemma {:induction false} SetDataAllAbsent<D>(ts: seq<Tree<D>>, x: nat, d: D)
    requires x !in IdsAll(ts)
    ensures SetDataAll(ts, x, d) == ts
    decreases ts, 0
  {
    if ts != [] {
      SetDataTAbsent(ts[0], x, d);
      SetDataAllAbsent(ts[1..], x, d);
      assert ts == [ts[0]] + ts[1..];
    }
  }

  lemma {:induction false} SetDataTFacts<D>(t: Tree<D>, x: nat, d: D)
    requires UniqueT(t) && x in Ids(t)
    ensures UniqueT(SetDataT(t, x, d)) && SetDataT(t, x, d).id == t.id && Ids(SetDataT(t, x, d)) == Ids(t)
    ensures FindT(t, x).Some? && FindT(SetDataT(t, x, d), x) == Some(FindT(t, x).value.(data := d))
    decreases t, 1
  {
    if t.id == x {
      assert SetDataT(t, x, d).kids == t.kids;
    } else {
      SetDataAllFacts(t.kids, x, d);
    }
  }

  /** Realloc's data update keeps every id, every list and the listed
      status; only the block's own data changes. */
  lemma {:induction false} SetDataAllFacts<D>(ts: seq<Tree<D>>, x: nat, d: D)
    requires UniqueAll(ts) && x in IdsAll(ts)
    ensures UniqueAll(SetDataAll(ts, x, d)) && IdsAll(SetDataAll(ts, x, d)) == IdsAll(ts)
    ensures RootIds(SetDataAll(ts, x, d)) == RootIds(ts)
    ensures FindAll(SetDataAll(ts, x, d), x) == Some(Subtree(ts, x).(data := d))
    decreases ts, 0
  {
    var r := SetDataAll(ts, x, d);
    assert r[1..] == SetDataAll(ts[1..], x, d);
    FindTFacts(ts[0], x);
    if x in Ids(ts[0]) {
      SetDataTFacts(ts[0], x, d);
      SetDataAllAbsent(ts[1..], x, d);
      FindTFacts(r[0], x);
    } else {
      SetDataTAbsent(ts[0], x, d);
      SetDataAllFacts(ts[1..], x, d);
      FindTFacts(r[0], x);
    }
    SetDataRootIds(ts, x, d);
    RootIdsSame(ts, r);
  }

  lemma {:induction false} SetDataRootIds<D>(ts: seq<Tree<D>>, x: nat, d: D)
    ensures |SetDataAll(ts, x, d)| == |ts| && forall i :: 0 <= i < |ts| ==> SetDataAll(ts, x, d)[i].id == ts[i].id
    decreases ts
  {
    if ts != [] {
      SetDataRootIds(ts[1..], x, d);
    }
  }

  /** What halloc(p, 0) hands to the allocator to free, in order: the
      subtrees of the children in list order, each child after its own
      children, and the block last. */
  function FreeOrderT<D>(t: Tree<D>): seq<nat>
    decreases t, 1
  {
    FreeOrderAll(t.kids) + [t.id]
  }

  function FreeOrderAll<D>(ts: seq<Tree<D>>): seq<nat>
    decreases ts, 0
  {
    if ts == [] then [] else FreeOrderT(ts[0]) + FreeOrderAll(ts[1..])
  }

  /** Freeing a block releases its whole subtree and nothing else. */
  lemma {:induction false} FreeOrderReleasesSubtree<D>(t: Tree<D>)
    ensures (set k | 0 <= k < |FreeOrderT(t)| :: FreeOrderT(t)[k]) == Ids(t)
    ensures FreeOrderT(t)[|FreeOrderT(t)| - 1] == t.id
    decreases t, 1
  {
    FreeOrderAllReleases(t.kids);
    var s := FreeOrderT(t);
    var a := FreeOrderAll(t.kids);
    assert s == a + [t.id];
    forall y | y in (set k | 0 <= k < |s| :: s[k]) ensures y in Ids(t) {
      var k :| 0 <= k < |s| && s[k] == y;
      if k < |a| {
        assert y in (set j | 0 <= j < |a| :: a[j]);
      }
    }
    forall y | y in Ids(t) ensures y in (set k | 0 <= k < |s| :: s[k]) {
      if y != t.id {
        assert y in (set j | 0 <= j < |a| :: a[j]);
        var j :| 0 <= j < |a| && a[j] == y;
        assert s[j] == y;
      } else {
        assert s[|s| - 1] == y;
      }
    }
  }

  lemma {:induction false} FreeOrderAllReleases<D>(ts: seq<Tree<D>>)
    ensures (set k | 0 <= k < |FreeOrderAll(ts)| :: FreeOrderAll(ts)[k]) == IdsAll(ts)
    decreases ts, 0
  {
    if ts != [] {
      FreeOrderReleasesSubtree(ts[0]);
      FreeOrderAllReleases(ts[1..]);
      var a, b := FreeOrderT(ts[0]), FreeOrderAll(ts[1..]);
      var s := a + b;
      assert FreeOrderAll(ts) == s;
      forall y | y in (set k | 0 <= k < |s| :: s[k]) ensures y in IdsAll(ts) {
        var k :| 0 <= k < |s| && s[k] == y;
        if k < |a| {
          assert y in (set j | 0 <= j < |a| :: a[j]);
        } else {
          assert b[k - |a|] == y;
          assert y in (set j | 0 <= j < |b| :: b[j]);
        }
      }
      forall y | y in IdsAll(ts) ensures y in (set k | 0 <= k < |s| :: s[k]) {
        if y in Ids(ts[0]) {
          var j :| 0 <= j < |a| && a[j] == y;
          assert s[j] == y;
        } else {
          var j :| 0 <= j < |b| && b[j] == y;
          assert s[|a| + j] == y;
        }
      }
    }
  }
}
