/**
 * The hook and the page against the store model: what the refetched view
 * shows after a write, given that the store is read back when it succeeds.
 */
module Session {
  import opened Wrappers
  import opened Articles
  import opened RemoteStore
  import opened UseArticles
  import opened IndexPage

  /** A stamped batch strips back to the batch. */
  lemma StripAllStamp(rows: seq<ArticleRow>, start: int)
    ensures StripAll(Stamp(rows, start)) == rows
  {
  }

  /** Stripping commutes with reversal. */
  lemma StripAllReverse(xs: seq<Article>)
    ensures StripAll(Reverse(xs)) == Reverse(StripAll(xs))
  {
  }

  /** The content of the read-back table, ignoring identifiers and order. */
  lemma SelectContent(s: Store)
    requires Valid(s)
    ensures multiset(StripAll(Select(s))) == multiset(StripAll(s.rows))
  {
    StripAllReverse(s.rows);
  }

  /** Reading back after an insert: the old content plus the batch. */
  lemma InsertedContent(store: Store, rows: seq<ArticleRow>)
    requires Valid(store)
    ensures multiset(StripAll(Select(Insert(store, rows)))) == multiset(StripAll(Select(store))) + multiset(rows)
  {
    var after := Insert(store, rows);
    var added := Stamp(rows, store.nextIndex);
    assert after.rows == store.rows + added;
    SelectContent(after);
    SelectContent(store);
    StripAllAppend(store.rows, added);
    StripAllStamp(rows, store.nextIndex);
  }

  /** Reading back after an insert: every record seen before is still there. */
  lemma InsertedKeeps(store: Store, rows: seq<ArticleRow>)
    requires Valid(store)
    ensures forall a :: a in Select(store) ==> a in Select(Insert(store, rows))
  {
  }

  /**
   * After a successful insert of the payload and a successful refetch, the
   * curated view holds the previous records plus one copy of each payload
   * row, under fresh identifiers, newest first.
   */
  lemma AddedRowsReachView(st: HookState, store: Store, selectedIndices: seq<int>, after: Store, step: Step)
    requires Valid(store)
    requires step.request.InsertRows?
    requires after == Insert(store, step.request.rows)
    requires step == AddToCuratedList(st, selectedIndices, WriteOk, Fetched(Some(Select(after))))
    ensures step.ok
    ensures multiset(StripAll(step.state.curated))
         == multiset(StripAll(Select(store))) + multiset(Payload(st.articles, selectedIndices))
    ensures forall a :: a in Select(store) ==> a in step.state.curated
    ensures forall j, k :: 0 <= j < k < |step.state.curated| ==>
              step.state.curated[j].index > step.state.curated[k].index
  {
    InsertedContent(store, step.request.rows);
    InsertedKeeps(store, step.request.rows);
  }

  /**
   * A failed refetch after a successful non-empty insert still resolves to
   * true, and the view then disagrees with the table.
   */
  lemma SwallowedRefetchLeavesStaleView(st: HookState, store: Store, selectedIndices: seq<int>)
    requires Valid(store)
    requires st.curated == Select(store)
    requires |Payload(st.articles, selectedIndices)| > 0
    ensures var after := Insert(store, Payload(st.articles, selectedIndices));
            var step := AddToCuratedList(st, selectedIndices, WriteOk, FetchFailed);
            step.ok && step.state.curated != Select(after)
  {
  }

  /** Deleting the identifier of the record at position `k` of the read-back view. */
  lemma DeleteFromView(store: Store, k: nat)
    requires Valid(store)
    requires k < |Select(store)|
    ensures var view := Select(store);
            var shown := Select(Delete(store, view[k].index));
            && view[k] !in shown
            && |shown| == |view| - 1
            && (forall j :: 0 <= j < |view| && j != k ==> view[j] in shown)
  {
  }

  /**
   * Clicking the remove button of the curated card at position `k`, with the
   * delete the click sends and the refetch succeeding, removes exactly that
   * record from the view and keeps every other one; the selection is untouched.
   */
  lemma RemoveClickedRecord(page: Page, store: Store, k: nat, after: Store, run: RemoveRun)
    requires Valid(store)
    requires page.hook.curated == Select(store)
    requires k < |page.hook.curated|
    requires run.request.DeleteIndex?
    requires after == Delete(store, run.request.index)
    requires run == ClickRemove(page, k, WriteOk, Fetched(Some(Select(after))))
    ensures run.success
    ensures run.final.hook.selected == page.hook.selected
    ensures page.hook.curated[k] !in run.final.hook.curated
    ensures |run.final.hook.curated| == |page.hook.curated| - 1
    ensures forall j :: 0 <= j < |page.hook.curated| && j != k ==>
              page.hook.curated[j] in run.final.hook.curated
  {
    DeleteFromView(store, k);
  }
}
