/**
 * The `useArticles` hook: the two article lists, the loading flag, the
 * selection, and the operations that read and write the hosted tables.
 * Every remote call is replaced by its reply, passed in as a parameter.
 */
module UseArticles {
  import opened Wrappers
  import opened Articles
  import Selection

  datatype HookState = HookState(
    articles: seq<Article>,
    curated: seq<Article>,
    loading: bool,
    selected: set<int>)

  /** Reply to an insert or delete: the `error` of the response is absent or present. */
  datatype WriteReply = WriteOk | WriteFailed

  /** Reply to a select: an error, or `data`, which may be null. */
  datatype FetchReply = FetchFailed | Fetched(data: Option<seq<Article>>)

  /** The write an operation sends to the `curated_list` table. */
  datatype Request = InsertRows(rows: seq<ArticleRow>) | DeleteIndex(index: int)

  /** The write sent, the hook's state afterwards, and the boolean the operation resolved to. */
  datatype Step = Step(request: Request, state: HookState, ok: bool)

  /** `fetchArticles`: a null result becomes the empty list; an error leaves the state as it was. */
  function FetchArticles(st: HookState, reply: FetchReply): (r: HookState)
    ensures r.curated == st.curated && r.loading == st.loading && r.selected == st.selected
    ensures reply.FetchFailed? ==> r == st
    ensures reply == Fetched(None) ==> r.articles == []
    ensures reply.Fetched? && reply.data.Some? ==> r.articles == reply.data.value
  {
    match reply
    case FetchFailed => st
    case Fetched(data) => st.(articles := data.GetOr([]))
  }

  /** `fetchCuratedArticles`: the same rule, for the curated list. */
  function FetchCuratedArticles(st: HookState, reply: FetchReply): (r: HookState)
    ensures r.articles == st.articles && r.loading == st.loading && r.selected == st.selected
    ensures reply.FetchFailed? ==> r == st
    ensures reply == Fetched(None) ==> r.curated == []
    ensures reply.Fetched? && reply.data.Some? ==> r.curated == reply.data.value
  {
    match reply
    case FetchFailed => st
    case Fetched(data) => st.(curated := data.GetOr([]))
  }

  /** The two fetches touch different lists, so the order in which they complete does not matter. */
  lemma FetchesCommute(st: HookState, articlesReply: FetchReply, curatedReply: FetchReply)
    ensures FetchArticles(FetchCuratedArticles(st, curatedReply), articlesReply)
         == FetchCuratedArticles(FetchArticles(st, articlesReply), curatedReply)
  {
  }

  /** The mount-time load: set loading, run both fetches, clear loading. */
  function LoadData(st: HookState, articlesReply: FetchReply, curatedReply: FetchReply): (r: HookState)
    ensures !r.loading
    ensures r.selected == st.selected
    ensures articlesReply.FetchFailed? ==> r.articles == st.articles
    ensures curatedReply.FetchFailed? ==> r.curated == st.curated
    ensures articlesReply.Fetched? ==> r.articles == articlesReply.data.GetOr([])
    ensures curatedReply.Fetched? ==> r.curated == curatedReply.data.GetOr([])
  {
    Refetch(st.(loading := true), articlesReply, curatedReply).(loading := false)
  }

  /** The hook's `refetch`: both fetches, without touching the loading flag. */
  function Refetch(st: HookState, articlesReply: FetchReply, curatedReply: FetchReply): (r: HookState)
    ensures r.loading == st.loading && r.selected == st.selected
    ensures articlesReply.FetchFailed? ==> r.articles == st.articles
    ensures curatedReply.FetchFailed? ==> r.curated == st.curated
    ensures articlesReply.Fetched? ==> r.articles == articlesReply.data.GetOr([])
    ensures curatedReply.Fetched? ==> r.curated == curatedReply.data.GetOr([])
  {
    FetchCuratedArticles(FetchArticles(st, articlesReply), curatedReply)
  }

  /** The articles whose `index` is among `selectedIndices`, in their order in `articles`. */
  function SelectedArticles(articles: seq<Article>, selectedIndices: seq<int>): (r: seq<Article>)
    ensures |r| <= |articles|
    decreases |articles|
  {
    if articles == [] then []
    else
      var rest := SelectedArticles(articles[1..], selectedIndices);
      if articles[0].index in selectedIndices then [articles[0]] + rest else rest
  }

  /** The filter keeps exactly the articles whose index is selected. */
  lemma {:induction false} SelectedArticlesMembers(articles: seq<Article>, selectedIndices: seq<int>)
    ensures forall a :: a in SelectedArticles(articles, selectedIndices) <==> a in articles && a.index in selectedIndices
    decreases |articles|
  {
    if articles != [] {
      assert articles == [articles[0]] + articles[1..];
      SelectedArticlesMembers(articles[1..], selectedIndices);
    }
  }

  /** An article occurs in the selection as often as in `articles` if its index is selected, else never. */
  lemma {:induction false} SelectedArticlesCount(articles: seq<Article>, selectedIndices: seq<int>, a: Article)
    ensures multiset(SelectedArticles(articles, selectedIndices))[a]
         == if a.index in selectedIndices then multiset(articles)[a] else 0
    decreases |articles|
  {
    if articles != [] {
      assert articles == [articles[0]] + articles[1..];
      SelectedArticlesCount(articles[1..], selectedIndices, a);
    }
  }

  /** One step of the filter: the head is kept exactly when its index is selected. */
  lemma SelectedArticlesCons(a: Article, rest: seq<Article>, selectedIndices: seq<int>)
    ensures SelectedArticles([a] + rest, selectedIndices)
         == (if a.index in selectedIndices then [a] else []) + SelectedArticles(rest, selectedIndices)
  {
    assert ([a] + rest)[1..] == rest;
  }

  /** Filtering commutes with concatenation, so relative order is kept. */
  lemma {:induction false} SelectedArticlesAppend(xs: seq<Article>, ys: seq<Article>, selectedIndices: seq<int>)
    ensures SelectedArticles(xs + ys, selectedIndices)
         == SelectedArticles(xs, selectedIndices) + SelectedArticles(ys, selectedIndices)
    decreases |xs|
  {
    if xs == [] {
      assert xs + ys == ys;
    } else {
      var x, rest := xs[0], xs[1..];
      var head := if x.index in selectedIndices then [x] else [];
      calc {
        SelectedArticles(xs + ys, selectedIndices);
        { assert xs + ys == [x] + (rest + ys); }
        SelectedArticles([x] + (rest + ys), selectedIndices);
        { SelectedArticlesCons(x, rest + ys, selectedIndices); }
        head + SelectedArticles(rest + ys, selectedIndices);
        { SelectedArticlesAppend(rest, ys, selectedIndices); }
        head + (SelectedArticles(rest, selectedIndices) + SelectedArticles(ys, selectedIndices));
        (head + SelectedArticles(rest, selectedIndices)) + SelectedArticles(ys, selectedIndices);
        { SelectedArticlesCons(x, rest, selectedIndices); assert xs == [x] + rest; }
        SelectedArticles(xs, selectedIndices) + SelectedArticles(ys, selectedIndices);
      }
    }
  }

  /**
   * Only which indices of `articles` are selected matters: the order and
   * repetitions of `selectedIndices`, and selected indices no article has,
   * make no difference.
   */
  lemma {:induction false} SelectedArticlesByMembership(articles: seq<Article>, sel1: seq<int>, sel2: seq<int>)
    requires forall a :: a in articles ==> (a.index in sel1 <==> a.index in sel2)
    ensures SelectedArticles(articles, sel1) == SelectedArticles(articles, sel2)
    decreases |articles|
  {
    if articles != [] {
      assert articles[0] in articles;
      SelectedArticlesByMembership(articles[1..], sel1, sel2);
    }
  }

  /** The rows `addToCuratedList` inserts: the selected articles, each without its `index`. */
  function Payload(articles: seq<Article>, selectedIndices: seq<int>): (rows: seq<ArticleRow>)
    ensures |rows| == |SelectedArticles(articles, selectedIndices)|
    ensures forall k :: 0 <= k < |rows| ==>
              WithIndex(rows[k], SelectedArticles(articles, selectedIndices)[k].index)
              == SelectedArticles(articles, selectedIndices)[k]
  {
    StripAll(SelectedArticles(articles, selectedIndices))
  }

  /** Every payload row is some selected article without its index. */
  lemma PayloadRowsFromSelection(articles: seq<Article>, selectedIndices: seq<int>)
    ensures forall row :: row in Payload(articles, selectedIndices) ==>
              exists a :: a in articles && a.index in selectedIndices && Strip(a) == row
  {
    var chosen := SelectedArticles(articles, selectedIndices);
    var rows := Payload(articles, selectedIndices);
    forall row | row in rows
      ensures exists a :: a in articles && a.index in selectedIndices && Strip(a) == row
    {
      var k :| 0 <= k < |rows| && rows[k] == row;
      SelectedArticlesMembers(articles, selectedIndices);
      assert chosen[k] in chosen;
      StripWithIndex(rows[k], chosen[k].index);
      assert Strip(chosen[k]) == row;
    }
  }

  /** Every selected article contributes its row to the payload. */
  lemma PayloadCoversSelection(articles: seq<Article>, selectedIndices: seq<int>)
    ensures forall a :: a in articles && a.index in selectedIndices ==>
              Strip(a) in Payload(articles, selectedIndices)
  {
    var chosen := SelectedArticles(articles, selectedIndices);
    var rows := Payload(articles, selectedIndices);
    SelectedArticlesMembers(articles, selectedIndices);
    forall a | a in articles && a.index in selectedIndices
      ensures Strip(a) in rows
    {
      var k :| 0 <= k < |chosen| && chosen[k] == a;
      StripWithIndex(rows[k], a.index);
    }
  }

  /**
   * `addToCuratedList`: insert the payload; on success refetch the curated
   * list and resolve to true, on error resolve to false and change nothing.
   * A failed refetch is swallowed by `fetchCuratedArticles`, so it does not
   * turn success into failure.
   */
  function AddToCuratedList(st: HookState, selectedIndices: seq<int>, insert: WriteReply, refetch: FetchReply): (s: Step)
    ensures s.request == InsertRows(Payload(st.articles, selectedIndices))
    ensures s.ok <==> insert.WriteOk?
    ensures insert.WriteFailed? ==> s.state == st
    ensures s.state.articles == st.articles && s.state.selected == st.selected && s.state.loading == st.loading
    ensures insert.WriteOk? && refetch.FetchFailed? ==> s.state.curated == st.curated
    ensures insert.WriteOk? && refetch == Fetched(None) ==> s.state.curated == []
    ensures insert.WriteOk? && refetch.Fetched? && refetch.data.Some? ==> s.state.curated == refetch.data.value
  {
    var rows := Payload(st.articles, selectedIndices);
    match insert
    case WriteFailed => Step(InsertRows(rows), st, false)
    case WriteOk => Step(InsertRows(rows), FetchCuratedArticles(st, refetch), true)
  }

  /** `removeFromCuratedList`: the same write-then-refetch rule for a delete. */
  function RemoveFromCuratedList(st: HookState, index: int, delete: WriteReply, refetch: FetchReply): (s: Step)
    ensures s.request == DeleteIndex(index)
    ensures s.ok <==> delete.WriteOk?
    ensures delete.WriteFailed? ==> s.state == st
    ensures s.state.articles == st.articles && s.state.selected == st.selected && s.state.loading == st.loading
    ensures delete.WriteOk? && refetch.FetchFailed? ==> s.state.curated == st.curated
    ensures delete.WriteOk? && refetch == Fetched(None) ==> s.state.curated == []
    ensures delete.WriteOk? && refetch.Fetched? && refetch.data.Some? ==> s.state.curated == refetch.data.value
  {
    match delete
    case WriteFailed => Step(DeleteIndex(index), st, false)
    case WriteOk => Step(DeleteIndex(index), FetchCuratedArticles(st, refetch), true)
  }

  /** `toggleArticleSelection` on the hook's state; nothing but the selection changes. */
  function ToggleArticleSelection(st: HookState, index: int): (r: HookState)
    ensures r.articles == st.articles && r.curated == st.curated && r.loading == st.loading
    ensures index in r.selected <==> index !in st.selected
    ensures forall j :: j != index ==> (j in r.selected <==> j in st.selected)
  {
    st.(selected := Selection.Toggle(st.selected, index))
  }

  /** `clearSelection` on the hook's state; nothing but the selection changes. */
  function ClearSelection(st: HookState): (r: HookState)
    ensures r.articles == st.articles && r.curated == st.curated && r.loading == st.loading
    ensures |r.selected| == 0
  {
    st.(selected := Selection.Clear())
  }
}
