/**
 The buffer pool: cached data pages and index files over the disk, and the page list of each table.
 */
module BufferPools {
  import opened Types
  import opened TablePages
  import opened BTreePages
  import opened LruPolicies
  import opened Caches
  import opened CacheLosses

  const CACHE_SIZE: nat := 100

  datatype IndexFile = IndexFile(rootPage: nat, lastPage: nat, pages: Pages, lastLsn: nat)

  const NEW_INDEX: IndexFile := IndexFile(1, 1, map[1 := IndexPage(1, 0, LeafNode([], [], 0))], 0)

  function ListOf(lists: map<Uuid, seq<Uuid>>, table: Uuid): seq<Uuid> {
    if table in lists then lists[table] else []
  }

  lemma LoadKeeps<K, V>(s: State<K, V>, key: K, maxSize: nat)
    requires Sound(s, maxSize) && Saved(s) && maxSize > 0
    ensures var t := Load(s, key, maxSize); Sound(t, maxSize) && Saved(t) && View(t) == View(s) && Lookup(t, key) == Lookup(s, key)
  {
    hide Sound, Saved, Load, View, Lookup;
    SafeStep(s, OpLoad(key), maxSize);
    LoadSaved(s, key, maxSize);
    ViewAt(s, key);
    ViewAt(Load(s, key, maxSize), key);
  }

  // At the pool's own size: a created page that is not marked survives reading 99 other pages, and the
  // hundredth loses it.
  lemma UnmarkedPageIsLost(page: TablePage)
    ensures exists disk: map<PageId, TablePage>, key, ks: seq<PageId> ::
      && key !in disk && |ks| == CACHE_SIZE
      && var t := Put(State(map[], [], disk), key, page, CACHE_SIZE);
         && View(Run(t, Loads(ks[..CACHE_SIZE - 1]), CACHE_SIZE)) == disk[key := page]
         && View(Run(t, Loads(ks), CACHE_SIZE)) == disk
  {
    hide Run, Put, Loads;
    var ks: seq<PageId> := seq(CACHE_SIZE, i => i + 1);
    var disk := map k: PageId | k in SetOf(ks) :: page;
    var s: State<PageId, TablePage> := State(map[], [], disk);
    assert View(s) == disk;
    var almost := ks[..CACHE_SIZE - 1];
    DistinctSize(ks);
    DistinctSize(almost);
    assert Existing(View(s), ks) == SetOf(ks) && Existing(View(s), almost) == SetOf(almost);
    UnmarkedIsLost(s, 0, page, almost, CACHE_SIZE);
    UnmarkedIsLost(s, 0, page, ks, CACHE_SIZE);
  }

  class BufferPool {
    const dataPages: Cache<PageId, TablePage>
    const indexFiles: Cache<Uuid, IndexFile>
    var pagesPerTable: map<Uuid, seq<PageId>>
    var indexesPerTable: map<Uuid, seq<Uuid>>

    ghost predicate Valid()
      reads dataPages, dataPages.policy, dataPages.disk, indexFiles, indexFiles.policy, indexFiles.disk
    {
      dataPages.Valid() && indexFiles.Valid() && dataPages.policy != indexFiles.policy
    }

    // What reading each page would return.
    ghost function PageView(): map<PageId, TablePage>
      reads dataPages, dataPages.policy, dataPages.disk
    {
      View(dataPages.Snapshot())
    }

    constructor (pageDisk: Disk<PageId, TablePage>, indexDisk: Disk<Uuid, IndexFile>,
                 pagesPerTable: map<Uuid, seq<PageId>>, indexesPerTable: map<Uuid, seq<Uuid>>)
      ensures Valid() && PageView() == pageDisk.pages && Saved(dataPages.Snapshot())
      ensures dataPages.disk == pageDisk && indexFiles.disk == indexDisk
      ensures this.pagesPerTable == pagesPerTable && this.indexesPerTable == indexesPerTable
      ensures fresh(dataPages) && fresh(dataPages.policy) && fresh(indexFiles) && fresh(indexFiles.policy)
    {
      dataPages := new Cache<PageId, TablePage>(pageDisk, CACHE_SIZE);
      indexFiles := new Cache<Uuid, IndexFile>(indexDisk, CACHE_SIZE);
      this.pagesPerTable := pagesPerTable;
      this.indexesPerTable := indexesPerTable;
    }

    // Reads a page through the cache.
    method GetDp(id: PageId) returns (page: Option<TablePage>)
      requires Valid()
      modifies dataPages, dataPages.policy, dataPages.disk
      ensures Valid() && dataPages.Snapshot() == Load(old(dataPages.Snapshot()), id, dataPages.maxSize)
      ensures page == Lookup(old(dataPages.Snapshot()), id)
    {
      hide Sound, Touched, MakeRoom;
      page := dataPages.Find(id);
      if page == None {
        if id !in dataPages.disk.pages {
          return;
        }
        var loaded := dataPages.disk.pages[id];
        dataPages.PutEntry(id, loaded);
        page := dataPages.Find(id);
      }
    }

    // A new page is cached but not marked: it is the caller's to mark.
    method CreateDp(table: Uuid, id: PageId) returns (page: TablePage)
      requires Valid()
      modifies this`pagesPerTable, dataPages, dataPages.policy, dataPages.disk
      ensures Valid() && page == NEW_PAGE
      ensures dataPages.Snapshot() == Get(Put(old(dataPages.Snapshot()), id, NEW_PAGE, dataPages.maxSize), id)
      ensures pagesPerTable == old(pagesPerTable)[table := ListOf(old(pagesPerTable), table) + [id]]
    {
      hide Sound, Touched, MakeRoom;
      dataPages.PutEntry(id, NEW_PAGE);
      if table !in pagesPerTable {
        pagesPerTable := pagesPerTable[table := [] + [id]];
      } else {
        pagesPerTable := pagesPerTable[table := pagesPerTable[table] + [id]];
      }
      var found := dataPages.Find(id);
      page := NEW_PAGE;
    }

    // The first page of the table with room for size more bytes, or a new one. When no cached page
    // was left unmarked, nothing readable changes but the new page.
    method PrepareDp(size: nat, table: Uuid, newId: PageId) returns (id: PageId)
      requires Valid()
      modifies this`pagesPerTable, dataPages, dataPages.policy, dataPages.disk
      ensures Valid()
      ensures old(Saved(dataPages.Snapshot())) ==> SavedBut(dataPages.Snapshot(), newId)
      ensures old(Saved(dataPages.Snapshot())) ==>
                var fit := FirstFit(old(PageView()), ListOf(old(pagesPerTable), table), size);
                if fit.Some? then
                  id == fit.value && PageView() == old(PageView()) && pagesPerTable == old(pagesPerTable)
                else
                  && id == newId && PageView() == old(PageView())[newId := NEW_PAGE]
                  && pagesPerTable == old(pagesPerTable)[table := ListOf(old(pagesPerTable), table) + [newId]]
    {
      hide Sound, View, Lookup, Load, Saved, SavedBut, Unsaved, Put, Get;
      ghost var saved := Saved(dataPages.Snapshot());
      if table in pagesPerTable {
        var ids := pagesPerTable[table];
        var i := 0;
        while i < |ids|
          invariant i <= |ids| && Valid() && pagesPerTable == old(pagesPerTable)
          invariant saved ==> Saved(dataPages.Snapshot()) && PageView() == old(PageView())
          invariant saved ==> FirstFit(old(PageView()), ids, size) == FirstFit(old(PageView()), ids[i..], size)
        {
          if saved {
            LoadKeeps(dataPages.Snapshot(), ids[i], dataPages.maxSize);
            ViewAt(dataPages.Snapshot(), ids[i]);
          }
          assert ids[i..][1..] == ids[i + 1..];
          var page := GetDp(ids[i]);
          if page.Some? && page.value.size + size <= MAX_SIZE {
            if saved {
              SavedIsSavedBut(dataPages.Snapshot(), newId);
            }
            return ids[i];
          }
          i := i + 1;
        }
      }
      if saved {
        CreateKeepsView(dataPages.Snapshot(), newId, NEW_PAGE, dataPages.maxSize);
      }
      var page := CreateDp(table, newId);
      id := newId;
    }

    method GetTableData(table: Uuid) returns (pages: seq<Option<TablePage>>)
      requires Valid()
      modifies dataPages, dataPages.policy, dataPages.disk
      ensures Valid() && |pages| == |ListOf(pagesPerTable, table)|
      ensures old(Saved(dataPages.Snapshot())) ==>
                && Saved(dataPages.Snapshot()) && PageView() == old(PageView())
                && forall i | 0 <= i < |pages| :: pages[i] == At(PageView(), ListOf(pagesPerTable, table)[i])
    {
      hide Sound, View, Lookup, Load, Saved;
      ghost var saved := Saved(dataPages.Snapshot());
      pages := [];
      if table !in pagesPerTable {
        return;
      }
      var ids := pagesPerTable[table];
      for i := 0 to |ids|
        invariant Valid() && |pages| == i
        invariant saved ==> Saved(dataPages.Snapshot()) && PageView() == old(PageView())
        invariant saved ==> forall j | 0 <= j < i :: pages[j] == At(PageView(), ids[j])
      {
        if saved {
          LoadKeeps(dataPages.Snapshot(), ids[i], dataPages.maxSize);
          ViewAt(dataPages.Snapshot(), ids[i]);
        }
        var page := GetDp(ids[i]);
        pages := pages + [page];
      }
    }

    method DirtyDp(id: PageId) returns (page: Option<TablePage>)
      requires Valid()
      modifies dataPages, dataPages.policy
      ensures Valid() && dataPages.Snapshot() == Get(MarkDirty(old(dataPages.Snapshot()), id), id)
      ensures page == if id in dataPages.entries then Some(dataPages.entries[id].value) else None
    {
      hide Sound, Touched;
      dataPages.Mark(id);
      page := dataPages.Find(id);
    }

    // Changes a page in place and marks it; a page that is not there stays away.
    method UpdateDp(id: PageId, page: TablePage)
      requires Valid()
      modifies dataPages, dataPages.policy, dataPages.disk
      ensures Valid()
      ensures old(Saved(dataPages.Snapshot())) ==>
                Saved(dataPages.Snapshot()) && PageView() == if id in old(PageView()) then old(PageView())[id := page] else old(PageView())
    {
      hide Sound, View, Lookup, Load, Saved, Put, Assign, MarkDirty;
      ghost var before := dataPages.Snapshot();
      if Saved(before) {
        ChangeKeeps(before, id, page, dataPages.maxSize);
      }
      RunThree(before, OpLoad(id), OpAssign(id, page), OpMarkDirty(id), dataPages.maxSize);
      var found := GetDp(id);
      dataPages.Write(id, page);
      dataPages.Mark(id);
    }

    method FlushDirty()
      requires Valid()
      modifies dataPages, dataPages.disk, indexFiles, indexFiles.disk
      ensures Valid()
      ensures dataPages.Snapshot() == Flush(old(dataPages.Snapshot()), dataPages.entries.Keys)
      ensures indexFiles.Snapshot() == Flush(old(indexFiles.Snapshot()), indexFiles.entries.Keys)
    {
      hide Sound, Flush;
      FlushParts(dataPages.Snapshot(), dataPages.entries.Keys);
      FlushParts(indexFiles.Snapshot(), indexFiles.entries.Keys);
      dataPages.FlushKeys(dataPages.entries.Keys);
      indexFiles.FlushKeys(indexFiles.entries.Keys);
    }

    // Writes out only what the durable log covers.
    method FlushDirtyUpTo(maxLsn: nat)
      requires Valid()
      modifies dataPages, dataPages.disk, indexFiles, indexFiles.disk
      ensures Valid() && PageView() == old(PageView())
      ensures dataPages.Snapshot() == Flush(old(dataPages.Snapshot()), PagesUpTo(old(dataPages.entries), maxLsn))
      ensures indexFiles.Snapshot() == Flush(old(indexFiles.Snapshot()), FilesUpTo(old(indexFiles.entries), maxLsn))
    {
      hide Sound, Flush, View;
      FlushView(dataPages.Snapshot(), PagesUpTo(dataPages.entries, maxLsn));
      dataPages.FlushKeys(PagesUpTo(dataPages.entries, maxLsn));
      indexFiles.FlushKeys(FilesUpTo(indexFiles.entries, maxLsn));
    }

    // ---- Index files ----

    method GetTableIndex(table: Uuid, index: Uuid) returns (file: Option<IndexFile>)
      requires Valid()
      modifies indexFiles, indexFiles.policy, indexFiles.disk
      ensures Valid()
      ensures index in ListOf(indexesPerTable, table) ==>
                && indexFiles.Snapshot() == Load(old(indexFiles.Snapshot()), index, indexFiles.maxSize)
                && file == Lookup(old(indexFiles.Snapshot()), index)
      ensures index !in ListOf(indexesPerTable, table) ==>
                file == None && indexFiles.Snapshot() == old(indexFiles.Snapshot())
    {
      hide Sound, Touched, MakeRoom;
      if table !in indexesPerTable || index !in indexesPerTable[table] {
        return None;
      }
      file := indexFiles.Find(index);
      if file == None {
        if index !in indexFiles.disk.pages {
          return;
        }
        var loaded := indexFiles.disk.pages[index];
        indexFiles.PutEntry(index, loaded);
        file := indexFiles.Find(index);
      }
    }

    // The new file is on disk before it is cached, there without its LSN.
    method CreateTableIndex(table: Uuid, index: Uuid, lastLsn: nat)
      requires Valid()
      modifies this`indexesPerTable, indexFiles, indexFiles.policy, indexFiles.disk
      ensures Valid() && index in indexFiles.entries
      ensures indexFiles.entries[index] == Entry(NEW_INDEX.(lastLsn := lastLsn), true)
      ensures indexFiles.Snapshot() == IndexCreated(old(indexFiles.Snapshot()), index, lastLsn, indexFiles.maxSize)
      ensures indexesPerTable == old(indexesPerTable)[table := ListOf(old(indexesPerTable), table) + [index]]
    {
      hide Sound, Touched, MakeRoom;
      indexFiles.disk.Write(index, NEW_INDEX);
      DiskSound(old(indexFiles.Snapshot()), indexFiles.Snapshot(), indexFiles.maxSize);
      PutSound(indexFiles.Snapshot(), index, NEW_INDEX.(lastLsn := lastLsn), indexFiles.maxSize);
      indexFiles.PutEntry(index, NEW_INDEX.(lastLsn := lastLsn));
      indexFiles.Mark(index);
      if table !in indexesPerTable {
        indexesPerTable := indexesPerTable[table := [] + [index]];
      } else {
        indexesPerTable := indexesPerTable[table := indexesPerTable[table] + [index]];
      }
    }

    method DirtyIf(index: Uuid) returns (file: Option<IndexFile>)
      requires Valid()
      modifies indexFiles, indexFiles.policy
      ensures Valid() && indexFiles.Snapshot() == Get(MarkDirty(old(indexFiles.Snapshot()), index), index)
      ensures file == if index in indexFiles.entries then Some(indexFiles.entries[index].value) else None
    {
      hide Sound, Touched;
      indexFiles.Mark(index);
      file := indexFiles.Find(index);
    }

    method SetIfLsn(index: Uuid, lastLsn: nat)
      requires Valid()
      modifies indexFiles, indexFiles.policy
      ensures Valid()
      ensures indexFiles.entries.Keys == old(indexFiles.entries).Keys && indexFiles.disk.pages == old(indexFiles.disk.pages)
      ensures forall k | k in indexFiles.entries ::
                indexFiles.entries[k] ==
                if k == index && old(indexFiles.entries)[k].value.lastLsn < lastLsn then
                  old(indexFiles.entries)[k].(value := old(indexFiles.entries)[k].value.(lastLsn := lastLsn))
                else old(indexFiles.entries)[k]
    {
      hide Sound, Touched;
      var file := indexFiles.Find(index);
      if file == None {
        return;
      }
      indexFiles.Write(index, file.value.(lastLsn := if file.value.lastLsn < lastLsn then lastLsn else file.value.lastLsn));
    }
  }

  // A new index file: written to the disk, cached with its LSN, which may evict another, and marked.
  function IndexCreated(s: State<Uuid, IndexFile>, index: Uuid, lastLsn: nat, maxSize: nat): State<Uuid, IndexFile> {
    MarkDirty(Put(s.(disk := s.disk[index := NEW_INDEX]), index, NEW_INDEX.(lastLsn := lastLsn), maxSize), index)
  }

  // A new index file can be read at once, and no other is lost or changed.
  lemma IndexCreatedView(s: State<Uuid, IndexFile>, index: Uuid, lastLsn: nat, maxSize: nat)
    requires Sound(s, maxSize) && Saved(s) && maxSize > 0 && index !in View(s)
    ensures var t := IndexCreated(s, index, lastLsn, maxSize);
      Sound(t, maxSize) && Saved(t) && View(t) == View(s)[index := NEW_INDEX.(lastLsn := lastLsn)]
  {
    hide Sound, Saved, View, Put, MarkDirty, Run, SavedBut;
    var r := s.(disk := s.disk[index := NEW_INDEX]);
    var file := NEW_INDEX.(lastLsn := lastLsn);
    DiskSound(s, r, maxSize);
    NewOnDisk(s, index, NEW_INDEX);
    CreateKeeps(r, index, file, maxSize);
    RunTwo(r, OpPut(index, file), OpMarkDirty(index), maxSize);
    assert View(s)[index := NEW_INDEX][index := file] == View(s)[index := file];
  }

  lemma NewOnDisk<K, V>(s: State<K, V>, key: K, value: V)
    requires Saved(s) && key !in View(s)
    ensures var r := s.(disk := s.disk[key := value]); Saved(r) && View(r) == View(s)[key := value]
  {
    var r := s.(disk := s.disk[key := value]);
    forall k | k in r.entries ensures !Unsaved(r, k) {
      assert !Unsaved(s, k);
    }
  }

  // The cached pages, or index files, that a log durable up to maxLsn covers.
  function PagesUpTo(entries: map<PageId, Entry<TablePage>>, maxLsn: nat): set<PageId> {
    set k | k in entries && entries[k].value.lastLsn <= maxLsn
  }

  function FilesUpTo(entries: map<Uuid, Entry<IndexFile>>, maxLsn: nat): set<Uuid> {
    set k | k in entries && entries[k].value.lastLsn <= maxLsn
  }

  // Such a flush makes what it covers clean, and writes nothing beyond: a page on disk is the old one, or
  // the cached one with an LSN that the log covers.
  lemma FlushedPages(s: State<PageId, TablePage>, maxLsn: nat)
    ensures var t := Flush(s, PagesUpTo(s.entries, maxLsn));
      && t.entries.Keys == s.entries.Keys && s.disk.Keys <= t.disk.Keys
      && (forall k | k in t.entries && t.entries[k].value.lastLsn <= maxLsn :: !t.entries[k].dirty)
      && (forall k | k in t.disk ::
            || (k in s.disk && t.disk[k] == s.disk[k])
            || (k in s.entries && t.disk[k] == s.entries[k].value && t.disk[k].lastLsn <= maxLsn))
  {
    FlushParts(s, PagesUpTo(s.entries, maxLsn));
  }

  lemma FlushedFiles(s: State<Uuid, IndexFile>, maxLsn: nat)
    ensures var t := Flush(s, FilesUpTo(s.entries, maxLsn));
      && t.entries.Keys == s.entries.Keys && s.disk.Keys <= t.disk.Keys
      && (forall k | k in t.entries && t.entries[k].value.lastLsn <= maxLsn :: !t.entries[k].dirty)
      && (forall k | k in t.disk ::
            || (k in s.disk && t.disk[k] == s.disk[k])
            || (k in s.entries && t.disk[k] == s.entries[k].value && t.disk[k].lastLsn <= maxLsn))
  {
    FlushParts(s, FilesUpTo(s.entries, maxLsn));
  }

  lemma SavedIsSavedBut<K, V>(s: State<K, V>, key: K)
    requires Saved(s)
    ensures SavedBut(s, key)
  {
  }

  lemma CreateKeepsView<K, V>(s: State<K, V>, key: K, value: V, maxSize: nat)
    requires Sound(s, maxSize) && maxSize > 0 && Saved(s)
    ensures var t := Get(Put(s, key, value, maxSize), key);
      SavedBut(t, key) && View(t) == View(s)[key := value]
  {
    hide Sound, Put, View, Saved;
    var a := Put(s, key, value, maxSize);
    SafeStep(s, OpPut(key, value), maxSize);
    PutSavedBut(s, key, value, maxSize);
    GetView(a, key);
  }

  lemma GetView<K, V>(s: State<K, V>, key: K)
    ensures View(Get(s, key)) == View(s)
    ensures forall k :: SavedBut(s, k) ==> SavedBut(Get(s, key), k)
  {
  }

  lemma FlushView<K, V>(s: State<K, V>, keys: set<K>)
    ensures View(Flush(s, keys)) == View(s)
  {
  }

  lemma FlushParts<K, V>(s: State<K, V>, keys: set<K>)
    ensures var t := Flush(s, keys);
      && t.entries.Keys == s.entries.Keys
      && (forall k | k in t.entries :: t.entries[k] == if k in keys then s.entries[k].(dirty := false) else s.entries[k])
      && (forall k | k in t.disk :: (k in s.disk && t.disk[k] == s.disk[k])
                                    || (k in keys && k in s.entries && t.disk[k] == s.entries[k].value))
  {
  }

  lemma DiskSound<K, V>(s: State<K, V>, t: State<K, V>, maxSize: nat)
    requires Sound(s, maxSize) && t.entries == s.entries && t.order == s.order
    ensures Sound(t, maxSize)
  {
  }
}
