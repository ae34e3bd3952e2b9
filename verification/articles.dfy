/** The article record shared by both collections (src/types/article.ts). */
module Articles {
  import opened Wrappers

  /** One stored article; `index` is the store-assigned identifier. */
  datatype Article = Article(
    index: int,
    link: string,
    content: Option<string>,
    pub_date: Option<string>,
    content_snippet: Option<string>,
    img_url: Option<string>,
    source: Option<string>,
    guid: Option<string>,
    title: Option<string>,
    should_draft_article: Option<bool>)

  /** An article without its `index`: the shape of a row sent for insertion. */
  datatype ArticleRow = ArticleRow(
    link: string,
    content: Option<string>,
    pub_date: Option<string>,
    content_snippet: Option<string>,
    img_url: Option<string>,
    source: Option<string>,
    guid: Option<string>,
    title: Option<string>,
    should_draft_article: Option<bool>)

  /** The record a store makes of `row` when it assigns it `index`. */
  function WithIndex(row: ArticleRow, index: int): (a: Article)
    ensures a.index == index
  {
    Article(index, row.link, row.content, row.pub_date, row.content_snippet,
            row.img_url, row.source, row.guid, row.title, row.should_draft_article)
  }

  /** Drops the `index` field and keeps every other field. */
  function Strip(a: Article): (row: ArticleRow)
    ensures WithIndex(row, a.index) == a
  {
    ArticleRow(a.link, a.content, a.pub_date, a.content_snippet,
               a.img_url, a.source, a.guid, a.title, a.should_draft_article)
  }

  /** Stripping a freshly indexed row gives the row back. */
  lemma StripWithIndex(row: ArticleRow, index: int)
    ensures Strip(WithIndex(row, index)) == row
  {
  }

  /** `map(({ index, ...article }) => article)`: strips every record, keeping order. */
  function StripAll(articles: seq<Article>): (rows: seq<ArticleRow>)
    ensures |rows| == |articles|
    ensures forall k :: 0 <= k < |rows| ==> WithIndex(rows[k], articles[k].index) == articles[k]
  {
    seq(|articles|, k requires 0 <= k < |articles| => Strip(articles[k]))
  }

  lemma StripAllAppend(xs: seq<Article>, ys: seq<Article>)
    ensures StripAll(xs + ys) == StripAll(xs) + StripAll(ys)
  {
  }

}
