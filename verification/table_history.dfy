/**
 Histories of inserts and index creations.
 */
module TableHistories {
  import opened Types
  import opened Values
  import opened TableRows
  import opened TableIndexes
  import opened TableUniques
  import opened TableStatements
  import opened TableStores

  datatype Statement =
    | Insert(cols: Option<seq<Option<nat>>>, values: seq<Value>, rowSize: nat, newId: PageId)
    | MakeIndex(id: Uuid, column: nat, isUnique: bool)

  // Page ids made anew are new.
  ghost predicate NewPages(history: seq<Statement>, pages: set<PageId>) {
    && (forall i | 0 <= i < |history| && history[i].Insert? :: history[i].newId !in pages)
    && (forall i, j | 0 <= i < j < |history| && history[i].Insert? && history[j].Insert? :: history[i].newId != history[j].newId)
  }

  lemma NothingReused(ls: seq<Located>, indexes: seq<TableIndex>, tokens: seq<Value>)
    requires NoneObsolete(ls)
    ensures !Reused(ls, indexes, tokens)
  {
  }

  // Until a statement throws, no two live rows share a value in the column of a unique index.
  method RunHistory(store: TableStore, history: seq<Statement>, realBytes: real -> seq<Byte>) returns (ok: bool)
    requires store.Valid() && store.FreshIds() && NewPages(history, store.pages.Keys)
    requires NoneObsolete(store.All()) && UniqueValues(store.All(), store.indexes)
    modifies store
    ensures ok ==> store.Valid() && store.FreshIds() && NoneObsolete(store.All())
    ensures ok ==> forall i, x, y :: 0 <= i < |store.indexes| && store.indexes[i].isUnique ==>
              x in LiveOf(store.All()) && y in LiveOf(store.All()) && Agree(x.1, y.1, store.indexes[i].column) ==> x == y
  {
    hide AllRows, PagesOk, RowsOk, IdsApart, Below, UniqueIn, LiveOf, NoneObsolete;
    PagesParts(store.pages, store.pageIds, store.chain);
    for n := 0 to |history|
      invariant (forall p | p in store.pageIds :: p in store.pages) && store.Valid()
      invariant store.FreshIds() && NoneObsolete(store.All()) && UniqueValues(store.All(), store.indexes)
      invariant forall i | n <= i < |history| && history[i].Insert? :: history[i].newId !in store.pages
    {
      match history[n] {
        case Insert(cols, values, rowSize, newId) =>
          NothingReused(store.All(), store.indexes, Arranged(store.width, cols, values));
          var page;
          ok, page := store.InsertRow(cols, values, rowSize, newId);
          if !ok {
            return;
          }
          PagesParts(store.pages, store.pageIds, store.chain);
        case MakeIndex(id, column, isUnique) =>
          ok := store.CreateIndex(id, column, isUnique, realBytes);
          if !ok {
            return;
          }
          PagesParts(store.pages, store.pageIds, store.chain);
      }
    }
    ok := true;
    UniqueLive(store.All(), store.indexes);
  }

  lemma UniqueLive(ls: seq<Located>, indexes: seq<TableIndex>)
    requires UniqueValues(ls, indexes)
    ensures forall i, x, y :: 0 <= i < |indexes| && indexes[i].isUnique ==>
              x in LiveOf(ls) && y in LiveOf(ls) && Agree(x.1, y.1, indexes[i].column) ==> x == y
  {
    hide Agree;
    forall i, x, y | 0 <= i < |indexes| && indexes[i].isUnique && x in LiveOf(ls) && y in LiveOf(ls)
                     && Agree(x.1, y.1, indexes[i].column) ensures x == y {
      LiveMember(ls, x);
      LiveMember(ls, y);
      assert UniqueIn(ls, indexes[i].column);
    }
  }
}
