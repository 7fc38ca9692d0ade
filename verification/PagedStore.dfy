/** The paged store as the program has it: page objects in a map, list elements
    that point to pages, and pages that point back to their list element. */
module PagedStore {
  import opened Records
  import opened FlatStore
  import opened Lru
  import opened Pages

  /** A node of the recency list. The list itself is the sequence of its nodes;
      removal is by node identity. */
  class ListElement {
    const value: PageStore

    constructor (value: PageStore)
      ensures this.value == value
    {
      this.value := value;
    }
  }

  class PageStore {
    const key: nat
    var lastCommitIndex: nat
    var store: Store
    var lruElement: ListElement?

    constructor (page: Page)
      ensures key == page.key && Value() == page && lruElement == null
    {
      key, lastCommitIndex, store, lruElement := page.key, page.lastCommitIndex, page.store, null;
    }

    /** The serialised form; the list element is private and not part of it. */
    function Value(): Page
      reads this
    {
      Page(key, lastCommitIndex, store)
    }
  }

  /** Removing by position is `Without` on a list without duplicates. */
  lemma {:induction false} WithoutAt(l: seq<nat>, i: nat)
    requires NoDup(l) && i < |l|
    ensures Without(l, l[i]) == l[..i] + l[i + 1..]
  {
    var n := |l| - 1;
    if i == n {
      WithoutAbsent(l[..n], l[n]);
    } else {
      WithoutAt(l[..n], i);
      assert l[..n][..i] == l[..i];
      assert l[i + 1..] == l[..n][i + 1..] + [l[n]];
    }
  }

  class PagedDnsStore {
    const lib: Lib
    const cap: nat
    var pages: map<nat, PageStore>
    var lruList: seq<ListElement>
    var disk: map<nat, Page>
    /** The value this object represents. */
    ghost var Model: Paged
    ghost var Repr: set<object>

    /** The page filed under `p` is the model's page `p`. */
    ghost predicate PageLinked(p: nat)
      requires p in pages
      reads this, Repr
    {
      p in Model.pages && pages[p] in Repr && pages[p].key == p && pages[p].Value() == Model.pages[p]
    }

    /** Node `i` of the list holds the page filed under the model's `i`-th key,
        and that page points back to the node. */
    ghost predicate NodeLinked(i: nat)
      requires i < |lruList| && |lruList| == |Model.lru|
      reads this, Repr
    {
      && Model.lru[i] in pages
      && pages[Model.lru[i]] == lruList[i].value
      && lruList[i].value in Repr
      && lruList[i].value.lruElement == lruList[i]
    }

    ghost predicate Linked()
      reads this, Repr
    {
      && this in Repr
      && disk == Model.disk
      && |lruList| == |Model.lru|
      && Model.pages.Keys == pages.Keys
      && (forall p | p in pages :: PageLinked(p))
      && (forall i | 0 <= i < |lruList| :: NodeLinked(i))
    }

    ghost predicate Valid()
      reads this, Repr
      ensures Valid() ==> this in Repr
    {
      Linked() && WellFormed(lib, cap, Model)
    }

    /** An empty store over whatever is on disk. */
    constructor (lib: Lib, cap: nat, disk: map<nat, Page>)
      requires 1 <= cap && PagesPlaced(lib, disk)
      ensures Valid() && fresh(Repr)
      ensures this.lib == lib && this.cap == cap
      ensures Model == Paged(map[], [], disk)
    {
      this.lib, this.cap, this.disk := lib, cap, disk;
      pages, lruList := map[], [];
      Model, Repr := Paged(map[], [], disk), {this};
    }

    method ReadPageIn(pageNum: nat)
      modifies this`pages
      ensures pageNum in old(pages) || pageNum !in disk ==> pages == old(pages)
      ensures pageNum !in old(pages) && pageNum in disk ==>
                && pageNum in pages
                && fresh(pages[pageNum])
                && pages == old(pages)[pageNum := pages[pageNum]]
                && pages[pageNum].key == disk[pageNum].key
                && pages[pageNum].Value() == disk[pageNum]
    {
      if pageNum in pages {
        return;
      }
      if pageNum !in disk {
        return;
      }
      var newPage := new PageStore(disk[pageNum]);
      pages := pages[pageNum := newPage];
    }

    method WritePageOut(pageNum: nat)
      modifies this`disk
      ensures disk == if pageNum in pages then old(disk)[pageNum := pages[pageNum].Value()] else old(disk)
    {
      if pageNum in pages {
        disk := disk[pageNum := pages[pageNum].Value()];
      }
    }

    /** Read a page in, or create it when it is nowhere. */
    method ReadOrCreate(pageNum: nat)
      requires Linked() && pageNum !in pages
      requires pageNum in disk ==> disk[pageNum].key == pageNum
      modifies this
      ensures Linked() && fresh(Repr - old(Repr))
      ensures Model == old(Model).(pages := old(Model).pages[pageNum := OnDisk(disk, pageNum)])
    {
      ReadPageIn(pageNum);
      if pageNum !in pages {
        var newPage := new PageStore(NewPage(pageNum));
        pages := pages[pageNum := newPage];
      }
      Repr := Repr + {pages[pageNum]};
      Model := Model.(pages := Model.pages[pageNum := OnDisk(disk, pageNum)]);
      forall i | 0 <= i < |lruList|
        ensures NodeLinked(i)
      {
        assert old(NodeLinked(i));
      }
    }

    /** Append a resident page to the list and point it to its new node. */
    method PushBack(pageNum: nat)
      requires Linked() && pageNum in pages && pageNum !in Model.lru
      modifies this, Repr
      ensures Linked() && Repr == old(Repr) && pages == old(pages)
      ensures Model == old(Model).(lru := old(Model).lru + [pageNum])
    {
      assert PageLinked(pageNum);
      var page := pages[pageNum];
      var e := new ListElement(page);
      lruList := lruList + [e];
      page.lruElement := e;
      Model := Model.(lru := Model.lru + [pageNum]);
      forall i | 0 <= i < |lruList|
        ensures NodeLinked(i)
      {
        if i < |lruList| - 1 {
          assert old(NodeLinked(i)) && old(PageLinked(Model.lru[i]));
        }
      }
    }

    /** Remove a node from the list; its page stays resident. */
    method Remove(el: ListElement)
      requires Linked() && NoDup(Model.lru) && el in lruList
      modifies this
      ensures Linked() && Repr == old(Repr) && pages == old(pages)
      ensures Model == old(Model).(lru := Without(old(Model).lru, el.value.key))
    {
      hide Without, NoDup;
      var i :| 0 <= i < |lruList| && lruList[i] == el;
      assert NodeLinked(i) && PageLinked(Model.lru[i]);
      WithoutAt(Model.lru, i);
      lruList := lruList[..i] + lruList[i + 1..];
      Model := Model.(lru := Model.lru[..i] + Model.lru[i + 1..]);
      forall j | 0 <= j < |lruList|
        ensures NodeLinked(j)
      {
        assert old(NodeLinked(if j < i then j else j + 1));
      }
    }

    /** Swap the front page out to disk and drop it from memory. */
    method SwapOutFront()
      requires Linked() && lruList != [] && NoDup(Model.lru)
      modifies this
      ensures Linked() && Repr == old(Repr)
      ensures var m := old(Model);
        && m.lru[0] in m.pages
        && Model == Paged(m.pages - {m.lru[0]}, m.lru[1..], m.disk[m.lru[0] := m.pages[m.lru[0]]])
    {
      assert NodeLinked(0);
      var popped := lruList[0].value;
      assert PageLinked(popped.key);
      lruList := lruList[1..];
      WritePageOut(popped.key);
      pages := pages - {popped.key};
      ghost var m := Model;
      Model := Paged(m.pages - {m.lru[0]}, m.lru[1..], m.disk[m.lru[0] := m.pages[m.lru[0]]]);
      forall i | 0 <= i < |lruList|
        ensures NodeLinked(i)
      {
        assert old(NodeLinked(i + 1));
        assert m.lru[0] != m.lru[i + 1];
      }
    }

    method LoadPageAndUpdateLRU(pageNum: nat)
      requires Linked() && WellFormed(lib, cap, Model) && pageNum !in pages
      modifies this, Repr
      ensures Linked() && fresh(Repr - old(Repr))
      ensures Model == GetPage(cap, old(Model), pageNum)
    {
      Evict(cap, Model.lru, pageNum);
      ReadOrCreate(pageNum);
      PushBack(pageNum);
      if |lruList| > cap {
        SwapOutFront();
      }
    }

    /** Remove the page's node from the list and append a new one. */
    method MoveToBack(pageKey: nat)
      requires Linked() && NoDup(Model.lru) && pageKey in Model.lru
      modifies this, Repr
      ensures Linked() && Repr == old(Repr) && pages == old(pages)
      ensures Model == GetPage(cap, old(Model), pageKey)
    {
      ghost var k :| 0 <= k < |Model.lru| && Model.lru[k] == pageKey;
      assert NodeLinked(k) && PageLinked(pageKey);
      var el := pages[pageKey].lruElement;
      if el != null {
        Remove(el);
        PushBack(pageKey);
      }
    }

    /** The page `name` belongs on, loaded if need be: always the resident page
        filed under its number. */
    method GetPageOf(name: string) returns (page: PageStore)
      requires Valid()
      modifies this, Repr
      ensures Valid() && fresh(Repr - old(Repr))
      ensures Model == GetPage(cap, old(Model), PageOf(lib, name))
      ensures PageOf(lib, name) in pages && page == pages[PageOf(lib, name)]
      ensures page in Repr && page.Value() == Copy(old(Model), PageOf(lib, name))
    {
      var pageKey := PageOf(lib, name);
      GetPageKeeps(lib, cap, Model, pageKey);
      if pageKey !in pages {
        LoadPageAndUpdateLRU(pageKey);
      } else {
        MoveToBack(pageKey);
      }
      assert pageKey in Model.pages;
      assert PageLinked(pageKey);
      page := pages[pageKey];
    }

    /** The records stored under a name. The page may have to be loaded and
        another one swapped out, but no page copy changes. */
    method LookupNameMap(domainName: string) returns (typeMap: TypeMap, hasTypeMap: bool)
      requires Valid()
      modifies this, Repr
      ensures Valid() && fresh(Repr - old(Repr))
      ensures Model == GetPage(cap, old(Model), PageOf(lib, domainName))
      ensures SameCopies(old(Model), Model) && View(lib, Model) == old(View(lib, Model))
      ensures hasTypeMap == (domainName in View(lib, Model))
      ensures typeMap == if hasTypeMap then View(lib, Model)[domainName] else map[]
    {
      GetPageKeeps(lib, cap, Model, PageOf(lib, domainName));
      GetPageKeepsView(lib, cap, Model, PageOf(lib, domainName));
      ViewAt(lib, Model, domainName);
      var page := GetPageOf(domainName);
      hasTypeMap := domainName in page.store;
      typeMap := if hasTypeMap then page.store[domainName] else map[];
    }

    /** Replace the contents of a resident page. */
    method SetPage(pageNum: nat, page: PageStore, store: Store, commitIndex: nat)
      requires Linked() && pageNum in pages && pages[pageNum] == page
      modifies this, Repr
      ensures Linked() && Repr == old(Repr)
      ensures Model == old(Model).(pages := old(Model).pages[pageNum := Page(pageNum, commitIndex, store)])
    {
      assert PageLinked(pageNum);
      page.store, page.lastCommitIndex := store, commitIndex;
      Model := Model.(pages := Model.pages[pageNum := Page(pageNum, commitIndex, store)]);
      forall p | p in pages
        ensures PageLinked(p)
      {
        assert old(PageLinked(p));
      }
      forall i | 0 <= i < |lruList|
        ensures NodeLinked(i)
      {
        assert old(NodeLinked(i));
      }
    }

    method AppendRecord(store: Store, rr: RR) returns (result: Store)
      ensures result == InsertInto(lib, store, rr)
    {
      var domainName := lib.lower(rr.name);
      var typeMap := if domainName in store then store[domainName] else map[];
      var rrs := if rr.rrType in typeMap then typeMap[rr.rrType] else [];
      typeMap := typeMap[rr.rrType := rrs + [lib.format(rr)]];
      result := store[domainName := typeMap];
    }

    method RemoveRecords(store: Store, name: string, rrType: nat) returns (result: Store)
      ensures result == DeleteFrom(store, name, rrType)
    {
      result := store;
      if name in store {
        var typeMap := store[name];
        if rrType in typeMap {
          typeMap := typeMap - {rrType};
        } else {
          assert typeMap - {rrType} == typeMap;
        }
        result := if |typeMap| == 0 then store - {name} else store[name := typeMap];
      }
    }

    /** `rrString` is the proposal that `rr` was parsed from. */
    method InsertRR(rr: RR, commitIndex: nat, ghost rrString: string)
      requires Valid() && lib.parse(rrString) == Good(rr)
      modifies this, Repr
      ensures Valid() && fresh(Repr - old(Repr))
      ensures Model == Commit(lib, cap, old(Model), AddRR(rrString), commitIndex)
    {
      hide WellFormed, InsertInto, DeleteFrom;
      CommitWellFormed(lib, cap, Model, AddRR(rrString), commitIndex);
      var domainName := lib.lower(rr.name);
      var page := GetPageOf(domainName);
      if page.lastCommitIndex >= commitIndex {
        return;
      }
      var store := AppendRecord(page.store, rr);
      SetPage(PageOf(lib, domainName), page, store, commitIndex);
    }

    /** The page's commit index moves even when there is nothing to delete. */
    method DeleteRRs(name: string, rrType: nat, commitIndex: nat)
      requires Valid()
      modifies this, Repr
      ensures Valid() && fresh(Repr - old(Repr))
      ensures Model == Commit(lib, cap, old(Model), DeleteRR(name, rrType), commitIndex)
    {
      hide WellFormed, InsertInto, DeleteFrom;
      CommitWellFormed(lib, cap, Model, DeleteRR(name, rrType), commitIndex);
      var page := GetPageOf(name);
      if page.lastCommitIndex >= commitIndex {
        return;
      }
      var store := RemoveRecords(page.store, name, rrType);
      SetPage(PageOf(lib, name), page, store, commitIndex);
    }

    method ApplyProposal(op: Op, index: nat)
      requires Valid()
      modifies this, Repr
      ensures Valid() && fresh(Repr - old(Repr))
      ensures Model == Commit(lib, cap, old(Model), op, index)
    {
      match op {
        case AddRR(rrString) =>
          var parsed := lib.parse(rrString);
          if parsed.Good? {
            InsertRR(parsed.rr, index, rrString);
          }
        case DeleteRR(name, rrType) =>
          DeleteRRs(name, rrType, index);
      }
    }

    /** Resident pages and their order only; swapped-out pages stay on disk. */
    method GetSnapshot(index: nat) returns (snap: Snapshot)
      requires Valid()
      ensures snap == Snapshot(index, Model.pages, Model.lru)
    {
      var lru: seq<nat> := [];
      for i := 0 to |lruList|
        invariant lru == Model.lru[..i]
      {
        assert NodeLinked(i) && PageLinked(Model.lru[i]);
        lru := lru + [lruList[i].value.key];
      }
      assert forall p | p in pages :: PageLinked(p);
      snap := Snapshot(index, map p | p in pages :: pages[p].Value(), lru);
    }

    /** The page objects a snapshot decodes to. */
    static method Unmarshal(pages: map<nat, Page>) returns (decoded: map<nat, PageStore>)
      ensures decoded.Keys == pages.Keys
      ensures forall p | p in decoded ::
        fresh(decoded[p]) && decoded[p].key == pages[p].key && decoded[p].Value() == pages[p]
    {
      decoded := map[];
      var todo := pages.Keys;
      while todo != {}
        invariant todo <= pages.Keys && decoded.Keys == pages.Keys - todo
        invariant forall p | p in decoded ::
          fresh(decoded[p]) && decoded[p].key == pages[p].key && decoded[p].Value() == pages[p]
        decreases |todo|
      {
        var p :| p in todo;
        var page := new PageStore(pages[p]);
        decoded := decoded[p := page];
        todo := todo - {p};
      }
    }

    /** Replace memory by the snapshot's pages and relink every page to a node of
        the rebuilt list. The disk is untouched. */
    method RecoverFromSnapshot(snap: Snapshot)
      requires Valid() && WellFormed(lib, cap, Restore(snap, map[]))
      modifies this, Repr
      ensures Valid() && fresh(Repr - old(Repr))
      ensures Model == Paged(snap.pages, snap.lru, old(disk))
    {
      pages := Unmarshal(snap.pages);
      lruList := [];
      Repr := {this} + pages.Values;
      Model := Paged(snap.pages, [], disk);
      Relink(snap.lru);
    }

    method Relink(order: seq<nat>)
      requires Linked() && Model.lru == [] && NoDup(order)
      requires forall p | p in order :: p in Model.pages
      modifies this, Repr
      ensures Linked() && Repr == old(Repr)
      ensures Model == old(Model).(lru := order)
    {
      for i := 0 to |order|
        invariant Linked() && Repr == old(Repr)
        invariant Model == old(Model).(lru := order[..i])
      {
        assert order[i] in order;
        PushBack(order[i]);
        assert order[..i + 1] == order[..i] + [order[i]];
      }
      assert order[..|order|] == order;
    }

    /** The commit loop. During initialisation it starts from the newest snapshot
        and ends at the first replay-done signal; later such a signal makes it
        load the newest snapshot, or end when there is none. */
    method ReadCommits(msgs: seq<CommitMsg>, latest: Option<Snapshot>, load: nat -> Option<Snapshot>, isInit: bool)
      returns (consumed: nat)
      requires Valid() && Loadable(lib, cap, load)
      requires latest.Some? ==> WellFormed(lib, cap, Restore(latest.value, map[]))
      modifies this, Repr
      ensures Valid() && fresh(Repr - old(Repr))
      ensures var start := if isInit && latest.Some? then Restore(latest.value, old(Model).disk) else old(Model);
        (Model, consumed) == Read(lib, cap, start, msgs, 0, load, isInit)
    {
      if isInit && latest.Some? {
        RecoverFromSnapshot(latest.value);
      }
      ghost var start := Model;
      consumed := 0;
      while consumed < |msgs|
        invariant Valid() && fresh(Repr - old(Repr))
        invariant consumed <= |msgs|
        invariant Read(lib, cap, start, msgs, 0, load, isInit)
               == Read(lib, cap, Model, msgs, consumed, load, isInit)
      {
        var msg := msgs[consumed];
        match msg {
          case ReplayDone =>
            if isInit {
              consumed := consumed + 1;
              return;
            }
            var newest := load(consumed);
            if newest.None? {
              consumed := consumed + 1;
              return;
            }
            RecoverFromSnapshot(newest.value);
          case Proposal(index, op) =>
            ApplyProposal(op, index);
        }
        consumed := consumed + 1;
      }
    }
  }
}
