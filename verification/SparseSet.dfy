/** The paged sparse set: a dense array of components, the entity of each dense slot, and
    pages that lead from an entity to its slot. */
module SparseSet {
  import opened Numbers

  const PAGE_SIZE: nat := 2048

  function Blank(n: nat): (p: seq<Option<nat>>)
    ensures |p| == n && forall i :: 0 <= i < n ==> p[i] == None
  {
    if n == 0 then [] else [None] + Blank(n - 1)
  }

  type Page = p: seq<Option<nat>> | |p| == PAGE_SIZE witness Blank(PAGE_SIZE)

  /** The dense slot the pages give for an entity. */
  function SlotOf(pages: seq<Page>, id: nat): Option<nat> {
    if id / PAGE_SIZE >= |pages| then None else pages[id / PAGE_SIZE][id % PAGE_SIZE]
  }

  function WithSlot(pages: seq<Page>, id: nat, slot: Option<nat>): seq<Page>
    requires id / PAGE_SIZE < |pages|
  {
    pages[id / PAGE_SIZE := pages[id / PAGE_SIZE][id % PAGE_SIZE := slot]]
  }

  /** Writing one entity's slot changes no other entity's, on the same page or another. */
  lemma SlotAfter(pages: seq<Page>, id: nat, slot: Option<nat>, other: nat)
    requires id / PAGE_SIZE < |pages|
    ensures SlotOf(WithSlot(pages, id, slot), other) == if other == id then slot else SlotOf(pages, other)
  {
    if other / PAGE_SIZE == id / PAGE_SIZE && other % PAGE_SIZE == id % PAGE_SIZE {
      assert other == PAGE_SIZE * (other / PAGE_SIZE) + other % PAGE_SIZE;
      assert id == PAGE_SIZE * (id / PAGE_SIZE) + id % PAGE_SIZE;
    }
  }

  function EmptyPages(n: nat): (pages: seq<Page>)
    ensures |pages| == n
    ensures forall i, k :: 0 <= i < n && 0 <= k < PAGE_SIZE ==> pages[i][k] == None
  {
    if n == 0 then [] else [Blank(PAGE_SIZE)] + EmptyPages(n - 1)
  }

  /** Dense slots and page entries are inverse to each other. */
  ghost predicate Aligned<T>(dense: seq<T>, entities: seq<nat>, pages: seq<Page>) {
    && |dense| == |entities|
    && (forall i :: 0 <= i < |entities| ==> SlotOf(pages, entities[i]) == Some(i))
    && (forall id :: SlotOf(pages, id).Some? ==>
          SlotOf(pages, id).value < |entities| && entities[SlotOf(pages, id).value] == id)
  }

  /** The finite map the three arrays stand for. */
  ghost function MapOf<T>(dense: seq<T>, entities: seq<nat>, pages: seq<Page>): map<nat, T>
    requires Aligned(dense, entities, pages)
  {
    map id | id in entities :: dense[SlotOf(pages, id).value]
  }

  lemma InMap<T>(dense: seq<T>, entities: seq<nat>, pages: seq<Page>, id: nat)
    requires Aligned(dense, entities, pages)
    ensures id in MapOf(dense, entities, pages) <==> SlotOf(pages, id).Some?
    ensures id in MapOf(dense, entities, pages) ==>
              MapOf(dense, entities, pages)[id] == dense[SlotOf(pages, id).value]
  {
    if SlotOf(pages, id).Some? {
      assert entities[SlotOf(pages, id).value] == id;
    }
  }

  class SparseSet<T> {
    var dense: seq<T>
    var entities: seq<nat>
    var sparsePages: seq<Page>

    ghost predicate Valid()
      reads this
    {
      Aligned(dense, entities, sparsePages)
    }

    ghost function Contents(): map<nat, T>
      requires Valid()
      reads this
    {
      MapOf(dense, entities, sparsePages)
    }

    constructor ()
      ensures Valid() && Contents() == map[]
    {
      dense, entities, sparsePages := [], [], [];
    }

    method Get(id: nat) returns (r: Option<T>)
      requires Valid()
      ensures r == if id in Contents() then Some(Contents()[id]) else None
    {
      InMap(dense, entities, sparsePages, id);
      if id / PAGE_SIZE >= |sparsePages| {
        return None;
      }
      var denseIndex := sparsePages[id / PAGE_SIZE][id % PAGE_SIZE];
      if denseIndex == None {
        return None;
      }
      return Some(dense[denseIndex.value]);
    }

    /** The dense slot a reference returned by `get` points into. */
    method Slot(id: nat) returns (r: Option<nat>)
      requires Valid()
      ensures r.Some? <==> id in Contents()
      ensures r.Some? ==> r.value < |dense| && entities[r.value] == id && dense[r.value] == Contents()[id]
    {
      InMap(dense, entities, sparsePages, id);
      if id / PAGE_SIZE >= |sparsePages| {
        return None;
      }
      return sparsePages[id / PAGE_SIZE][id % PAGE_SIZE];
    }

    /** Writing through a reference that `get` returned. */
    method SetAt(slot: nat, component: T)
      requires Valid() && slot < |dense|
      modifies this`dense
      ensures Valid() && |dense| == |old(dense)|
      ensures Contents() == old(Contents())[entities[slot] := component]
    {
      WriteSlot(dense, entities, sparsePages, slot, component);
      dense := dense[slot := component];
    }

    method Has(id: nat) returns (r: bool)
      requires Valid()
      ensures r <==> id in Contents()
    {
      InMap(dense, entities, sparsePages, id);
      if id / PAGE_SIZE >= |sparsePages| {
        return false;
      }
      return sparsePages[id / PAGE_SIZE][id % PAGE_SIZE].Some?;
    }

    method Size() returns (n: nat)
      requires Valid()
      ensures n == |Contents()|
    {
      EntitiesDistinct(dense, entities, sparsePages);
      DistinctCount(entities);
      assert Contents().Keys == Elements(entities);
      n := |dense|;
    }

    method Put(id: nat, component: T)
      requires Valid()
      modifies this
      ensures Valid() && Contents() == old(Contents())[id := component]
    {
      var page := id / PAGE_SIZE;
      ghost var pages0 := sparsePages;
      if page >= |sparsePages| {
        sparsePages := sparsePages + EmptyPages(page + 1 - |sparsePages|);
        GrownPages(pages0, sparsePages);
      }
      ghost var pages1 := sparsePages;
      assert forall other :: SlotOf(pages1, other) == SlotOf(pages0, other);
      var denseIndex := sparsePages[page][id % PAGE_SIZE];
      if denseIndex == None {
        dense := dense + [component];
        entities := entities + [id];
        sparsePages := WithSlot(sparsePages, id, Some(|dense| - 1));
        PutFresh(old(dense), old(entities), pages0, pages1, id, component);
      } else {
        assert SlotOf(pages0, id) == denseIndex;
        dense := dense[denseIndex.value := component];
        entities := entities[denseIndex.value := id];
        PutOver(old(dense), old(entities), pages0, pages1, id, component);
      }
    }

    /** Swap with the last slot and drop it. */
    method Remove(id: nat)
      requires Valid()
      modifies this
      ensures Valid() && Contents() == old(Contents()) - {id}
    {
      var has := Has(id);
      if !has {
        assert Contents() - {id} == Contents();
        return;
      }
      InMap(dense, entities, sparsePages, id);
      var targetIndex := sparsePages[id / PAGE_SIZE][id % PAGE_SIZE].value;
      var last := |dense| - 1;
      var movedEntityId := entities[last];
      hide Aligned;
      hide MapOf;
      hide SlotOf;
      RemoveSwap(dense, entities, sparsePages, id, targetIndex);

      dense := dense[targetIndex := dense[last]];
      entities := entities[targetIndex := entities[last]];
      dense, entities := dense[..last], entities[..last];
      assert dense == Dropped(old(dense), targetIndex) && entities == Dropped(old(entities), targetIndex);
      hide Dropped;
      sparsePages := WithSlot(sparsePages, id, None);
      if targetIndex < |dense| {
        sparsePages := WithSlot(sparsePages, movedEntityId, Some(targetIndex));
      }
    }

    method Clear()
      modifies this
      ensures Valid() && Contents() == map[]
    {
      dense, entities, sparsePages := [], [], [];
    }
  }

  // ---- The steps on values ----

  lemma GrownPages(pages: seq<Page>, grown: seq<Page>)
    requires |pages| <= |grown| && grown[..|pages|] == pages
    requires forall i, k :: |pages| <= i < |grown| && 0 <= k < PAGE_SIZE ==> grown[i][k] == None
    ensures forall id: nat :: SlotOf(grown, id) == SlotOf(pages, id)
  {
    forall id: nat ensures SlotOf(grown, id) == SlotOf(pages, id) {
      if id / PAGE_SIZE < |pages| {
        assert grown[..|pages|][id / PAGE_SIZE] == pages[id / PAGE_SIZE];
      }
    }
  }

  lemma PutFresh<T>(dense: seq<T>, entities: seq<nat>, pages0: seq<Page>, pages: seq<Page>, id: nat, component: T)
    requires Aligned(dense, entities, pages0) && id / PAGE_SIZE < |pages|
    requires forall other :: SlotOf(pages, other) == SlotOf(pages0, other)
    requires SlotOf(pages, id) == None
    ensures var pages' := WithSlot(pages, id, Some(|dense|));
            && Aligned(dense + [component], entities + [id], pages')
            && MapOf(dense + [component], entities + [id], pages') == MapOf(dense, entities, pages0)[id := component]
  {
    var pages' := WithSlot(pages, id, Some(|dense|));
    forall other ensures SlotOf(pages', other) == if other == id then Some(|dense|) else SlotOf(pages0, other) {
      SlotAfter(pages, id, Some(|dense|), other);
    }
    hide WithSlot;
    AppendAligned(dense, entities, pages0, pages', id, component);
  }

  lemma AppendAligned<T>(dense: seq<T>, entities: seq<nat>, pages: seq<Page>, pages': seq<Page>, id: nat, component: T)
    requires Aligned(dense, entities, pages) && SlotOf(pages, id) == None
    requires forall other :: SlotOf(pages', other) == if other == id then Some(|dense|) else SlotOf(pages, other)
    ensures Aligned(dense + [component], entities + [id], pages')
    ensures MapOf(dense + [component], entities + [id], pages') == MapOf(dense, entities, pages)[id := component]
  {
    hide SlotOf;
    assert Aligned(dense + [component], entities + [id], pages');
    assert forall other :: other in entities + [id] <==> other in entities || other == id;
  }

  lemma PutOver<T>(dense: seq<T>, entities: seq<nat>, pages0: seq<Page>, pages: seq<Page>, id: nat, component: T)
    requires Aligned(dense, entities, pages0)
    requires forall other :: SlotOf(pages, other) == SlotOf(pages0, other)
    requires SlotOf(pages, id).Some?
    ensures var i := SlotOf(pages, id).value;
            && i < |dense|
            && Aligned(dense[i := component], entities[i := id], pages)
            && MapOf(dense[i := component], entities[i := id], pages) == MapOf(dense, entities, pages0)[id := component]
  {
    var i := SlotOf(pages, id).value;
    hide SlotOf;
    assert entities[i := id] == entities;
    assert Aligned(dense[i := component], entities, pages);
    assert id in entities;
  }

  lemma WriteSlot<T>(dense: seq<T>, entities: seq<nat>, pages: seq<Page>, slot: nat, component: T)
    requires Aligned(dense, entities, pages) && slot < |dense|
    ensures Aligned(dense[slot := component], entities, pages)
    ensures MapOf(dense[slot := component], entities, pages)
         == MapOf(dense, entities, pages)[entities[slot] := component]
  {
    hide SlotOf;
    assert Aligned(dense[slot := component], entities, pages);
    assert entities[slot] in entities;
  }

  /** The slot of an entity holds its component. */
  lemma AtSlot<T>(dense: seq<T>, entities: seq<nat>, pages: seq<Page>, slot: nat)
    requires Aligned(dense, entities, pages) && slot < |dense|
    ensures entities[slot] in MapOf(dense, entities, pages)
    ensures MapOf(dense, entities, pages)[entities[slot]] == dense[slot]
  {
  }

  /** The last element in place of the one at `target`. */
  function Dropped<A>(s: seq<A>, target: nat): (r: seq<A>)
    requires target < |s|
    ensures |r| == |s| - 1
  {
    s[target := s[|s| - 1]][..|s| - 1]
  }

  lemma RemoveSwap<T>(dense: seq<T>, entities: seq<nat>, pages: seq<Page>, id: nat, target: nat)
    requires Aligned(dense, entities, pages) && SlotOf(pages, id) == Some(target)
    ensures target < |dense| && id / PAGE_SIZE < |pages| && entities[|dense| - 1] / PAGE_SIZE < |pages|
    ensures var last := |dense| - 1;
            var dense', entities' := Dropped(dense, target), Dropped(entities, target);
            var cleared := WithSlot(pages, id, None);
            var pages' := if target < last then WithSlot(cleared, entities[last], Some(target)) else cleared;
            && Aligned(dense', entities', pages')
            && MapOf(dense', entities', pages') == MapOf(dense, entities, pages) - {id}
  {
    var last := |dense| - 1;
    var moved := entities[last];
    var dense', entities' := Dropped(dense, target), Dropped(entities, target);
    assert SlotOf(pages, moved) == Some(last);
    var cleared := WithSlot(pages, id, None);
    var pages' := if target < last then WithSlot(cleared, moved, Some(target)) else cleared;
    forall other
      ensures SlotOf(pages', other) ==
        if other == id then None
        else if other == moved then Some(target)
        else SlotOf(pages, other)
    {
      SlotAfter(pages, id, None, other);
      if target < last {
        SlotAfter(cleared, moved, Some(target), other);
      }
    }
    hide SlotOf;
    hide WithSlot;
    RemoveAligned(dense, entities, pages, id, target, pages');
  }

  lemma RemoveAligned<T>(dense: seq<T>, entities: seq<nat>, pages: seq<Page>, id: nat, target: nat, pages': seq<Page>)
    requires Aligned(dense, entities, pages) && SlotOf(pages, id) == Some(target)
    requires target < |dense|
    requires forall other :: SlotOf(pages', other) ==
               if other == id then None
               else if other == entities[|dense| - 1] then Some(target)
               else SlotOf(pages, other)
    ensures var last := |dense| - 1;
            var dense', entities' := Dropped(dense, target), Dropped(entities, target);
            && Aligned(dense', entities', pages')
            && MapOf(dense', entities', pages') == MapOf(dense, entities, pages) - {id}
  {
    hide SlotOf;
    var last := |dense| - 1;
    var dense', entities' := Dropped(dense, target), Dropped(entities, target);
    assert Aligned(dense', entities', pages');
    var m, m' := MapOf(dense, entities, pages), MapOf(dense', entities', pages');
    forall other ensures other in entities' <==> other in entities && other != id {
      if other in entities && other != id {
        var i :| 0 <= i < |entities| && entities[i] == other;
        assert i != target;
        if i == last {
          assert entities'[target] == other;
        } else {
          assert entities'[i] == other;
        }
      }
    }
    assert m'.Keys == m.Keys - {id};
  }

  lemma EntitiesDistinct<T>(dense: seq<T>, entities: seq<nat>, pages: seq<Page>)
    requires Aligned(dense, entities, pages)
    ensures forall i, j :: 0 <= i < j < |entities| ==> entities[i] != entities[j]
  {
  }

  function Elements(s: seq<nat>): set<nat> {
    set x | x in s
  }

  lemma {:induction false} DistinctCount(s: seq<nat>)
    requires forall i, j :: 0 <= i < j < |s| ==> s[i] != s[j]
    ensures |Elements(s)| == |s|
  {
    if s != [] {
      DistinctCount(s[1..]);
      assert s == [s[0]] + s[1..];
      assert Elements(s) == {s[0]} + Elements(s[1..]);
      assert s[0] !in s[1..];
    }
  }
}
