/**
 * The handlers of the `Index` page: curating the selection and removing a
 * curated record. The page's own state is the hook's state plus the
 * `isProcessing` flag.
 */
module IndexPage {
  import opened Wrappers
  import opened Articles
  import opened UseArticles

  datatype Page = Page(hook: HookState, isProcessing: bool)

  /**
   * One run of `handleCurateList`: the indices handed to `addToCuratedList`
   * and the write that call sent (none if it was not called), the page while
   * that call is pending, and the page once the handler has finished.
   */
  datatype CurateRun = CurateRun(sent: Option<seq<int>>, request: Option<Request>, pending: Option<Page>, final: Page)

  /** One run of `handleRemoveFromCurated`: the write sent, the final page and whether the removal succeeded. */
  datatype RemoveRun = RemoveRun(request: Request, final: Page, success: bool)

  /** `Array.from(set)`: each member exactly once, in some order. */
  method ArrayFrom(s: set<int>) returns (xs: seq<int>)
    ensures |xs| == |s|
    ensures forall i :: i in xs <==> i in s
    ensures forall j, k :: 0 <= j < k < |xs| ==> xs[j] != xs[k]
  {
    xs := [];
    var rest := s;
    while rest != {}
      invariant rest <= s
      invariant forall i :: i in xs <==> i in s && i !in rest
      invariant |xs| + |rest| == |s|
      invariant forall j, k :: 0 <= j < k < |xs| ==> xs[j] != xs[k]
      decreases |rest|
    {
      NonEmptyHasMember(rest);
      var x :| x in rest;
      xs := xs + [x];
      rest := rest - {x};
    }
  }

  lemma NonEmptyHasMember(s: set<int>)
    requires s != {}
    ensures exists x :: x in s
  {
    if forall x :: x !in s {
      assert false;
    }
  }

  /**
   * `handleCurateList`. An empty selection is refused before anything else
   * happens. Otherwise the page is marked as processing, the whole selection
   * is sent to `addToCuratedList`, the selection is cleared only if that
   * succeeded, and processing ends on both outcomes.
   */
  method HandleCurateList(page: Page, insert: WriteReply, refetch: FetchReply) returns (run: CurateRun)
    ensures |page.hook.selected| == 0 ==> run == CurateRun(None, None, None, page)
    ensures |page.hook.selected| > 0 ==>
              && run.sent.Some?
              && |run.sent.value| == |page.hook.selected|
              && (forall i :: i in run.sent.value <==> i in page.hook.selected)
    ensures |page.hook.selected| > 0 ==>
              && run.request.Some? && run.request.value.InsertRows?
              && run.request.value.rows == Payload(page.hook.articles, run.sent.value)
    ensures |page.hook.selected| > 0 ==>
              forall a :: a in page.hook.articles && a.index in page.hook.selected ==>
                Strip(a) in run.request.value.rows
    ensures |page.hook.selected| > 0 ==>
              forall row :: row in run.request.value.rows ==>
                exists a :: a in page.hook.articles && a.index in page.hook.selected && Strip(a) == row
    ensures |page.hook.selected| > 0 ==> run.pending == Some(page.(isProcessing := true))
    ensures |page.hook.selected| > 0 ==> !run.final.isProcessing
    ensures |page.hook.selected| > 0 && insert.WriteOk? ==> |run.final.hook.selected| == 0
    ensures |page.hook.selected| > 0 && insert.WriteFailed? ==> run.final.hook == page.hook
    ensures run.final.hook.articles == page.hook.articles
    ensures |page.hook.selected| > 0 && insert.WriteOk? && refetch.Fetched? ==>
              run.final.hook.curated == refetch.data.GetOr([])
    ensures |page.hook.selected| > 0 && insert.WriteOk? && refetch.FetchFailed? ==>
              run.final.hook.curated == page.hook.curated
    ensures run.final.hook.loading == page.hook.loading
  {
    if |page.hook.selected| == 0 {
      return CurateRun(None, None, None, page);
    }
    var pending := page.(isProcessing := true);
    var sent := ArrayFrom(page.hook.selected);
    var step := AddToCuratedList(pending.hook, sent, insert, refetch);
    var hook := if step.ok then ClearSelection(step.state) else step.state;
    PayloadCoversSelection(page.hook.articles, sent);
    PayloadRowsFromSelection(page.hook.articles, sent);
    run := CurateRun(Some(sent), Some(step.request), Some(pending), Page(hook, false));
  }

  /**
   * Any listing of the selection yields the same insert payload, so the order
   * `Array.from` happens to produce is irrelevant.
   */
  lemma CuratePayloadIgnoresOrder(hook: HookState, sent1: seq<int>, sent2: seq<int>)
    requires forall i :: i in sent1 <==> i in hook.selected
    requires forall i :: i in sent2 <==> i in hook.selected
    ensures Payload(hook.articles, sent1) == Payload(hook.articles, sent2)
  {
    SelectedArticlesByMembership(hook.articles, sent1, sent2);
  }

  /**
   * `handleRemoveFromCurated`: removes by index; the selection, the article
   * list and the processing flag are never touched.
   */
  function HandleRemoveFromCurated(page: Page, index: int, delete: WriteReply, refetch: FetchReply): (r: RemoveRun)
    ensures r.request == DeleteIndex(index)
    ensures r.final.hook.selected == page.hook.selected
    ensures r.final.hook.articles == page.hook.articles
    ensures r.final.isProcessing == page.isProcessing
    ensures r.success <==> delete.WriteOk?
    ensures !r.success ==> r.final == page
    ensures r.success && refetch.Fetched? ==> r.final.hook.curated == refetch.data.GetOr([])
    ensures r.success && refetch.FetchFailed? ==> r.final == page
    ensures r.final.hook.loading == page.hook.loading
  {
    var step := RemoveFromCuratedList(page.hook, index, delete, refetch);
    RemoveRun(step.request, page.(hook := step.state), step.ok)
  }

  /** The remove button of the curated card at position `k` targets that record's own index. */
  function ClickRemove(page: Page, k: nat, delete: WriteReply, refetch: FetchReply): (r: RemoveRun)
    requires k < |page.hook.curated|
    ensures r.request == DeleteIndex(page.hook.curated[k].index)
    ensures r.final.hook.selected == page.hook.selected
    ensures r.success <==> delete.WriteOk?
  {
    HandleRemoveFromCurated(page, page.hook.curated[k].index, delete, refetch)
  }
}
