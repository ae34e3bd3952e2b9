# Article curation dashboard — Dafny model

This project models the logic of a small article curation front end. The page lists articles from a hosted table. The user ticks some of them and copies them into a second table, the curated list, which feeds a newsletter. The user can also remove a single record from the curated list.

Three pieces of sequential logic are modelled:

- **Source label** (`source_label.dfy`, module `SourceLabel`): `extractSourceFromUrl` turns a URL into a short label. It removes one leading `www.` from the hostname, splits it on `.`, and returns the first piece when there are at least two. Otherwise it returns the whole hostname, and it returns `""` when the URL does not parse. JavaScript's `split` is modelled exactly (`Split`), together with its inverse `Join`.
- **The `useArticles` hook** (`use_articles.dfy`, module `UseArticles`; `selection.dfy`, module `Selection`): the selection set and toggling it, the insert payload of `addToCuratedList`, and the fetch and write operations. Every remote call is replaced by its reply, which is passed in as a parameter:
  - `WriteOk` or `WriteFailed` for an insert or delete;
  - `FetchFailed`, or `Fetched(data)` with possibly-null `data`, for a select.
- **The `Index` page handlers** (`index_page.dfy`, module `IndexPage`): `handleCurateList` and `handleRemoveFromCurated` as transitions over the hook's state and the `isProcessing` flag.

The `Article` record is in `articles.dfy`, and `ArticleRow` is that record without its `index`. The hosted `curated_list` table lives outside the application. `remote_store.dfy` models only the behaviour the hook relies on:
- rows are kept in insertion order;
- a serial counter hands out fresh identifiers;
- reading the table back returns all rows, highest identifier first.

`session.dfy` joins the hook to that table model and states what the refetched view shows after each kind of write.

## Model

| member | source | states |
|---|---|---|
| `Wrappers.Option.GetOr` | src/hooks/useArticles.ts:19 | the fallback of `data` to `[]` when the reply carries none: a present value is returned as it is, and an absent one gives the default |
| `Articles.WithIndex` | src/hooks/useArticles.ts:45 | the record the store makes of a sent row carries the identifier the store assigned; `StripWithIndex` shows it keeps every other field |
| `Articles.Strip` | src/hooks/useArticles.ts:45-46 | dropping `index` keeps every other field: re-attaching the same index gives back the original article |
| `Articles.StripWithIndex` | src/hooks/useArticles.ts:45-46 | a row the store has given an index strips back to that same row |
| `Articles.StripAll` | src/hooks/useArticles.ts:46 | the stripped list has the same length, and each row is the corresponding article minus its index |
| `SourceLabel.StripWww` | src/lib/utils.ts:13-16 | a hostname starting with `www.` loses exactly those four characters; any other hostname is unchanged |
| `SourceLabel.StripWwwOnce` | src/lib/utils.ts:14-16 | only one `www.` is removed, even when the remainder starts with `www.` again |
| `SourceLabel.FirstIndex` | src/lib/utils.ts:19-21 | the position found holds the separator, and no earlier position does |
| `SourceLabel.Split` | src/lib/utils.ts:19 | `split('.')` always yields at least one piece, and no piece contains the separator |
| `SourceLabel.SplitJoin` | src/lib/utils.ts:19 | joining the pieces with the separator restores the original hostname |
| `SourceLabel.SplitCount` | src/lib/utils.ts:19-20 | there are at least two pieces exactly when the hostname contains a dot |
| `SourceLabel.ExtractSourceFromUrl` | src/lib/utils.ts:8-29 | a failed parse gives `""`; the label never contains a dot and is a prefix of the stripped hostname; with a dot it is exactly the text before the first dot, and without one it is the whole stripped hostname |
| `SourceLabel.LabelIsFirstPiece` | src/lib/utils.ts:19-24 | the label is always the first piece of the stripped hostname split on dots |
| `SourceLabel.FirstIndexUnique` | src/lib/utils.ts:19-21 | a position holding the separator with none before it is the first occurrence |
| `SourceLabel.DoubleWwwExample` | src/lib/utils.ts:14-22 | hostname `www.www.foo.com` yields `www` |
| `SourceLabel.CountryDomainExample` | src/lib/utils.ts:14-22 | hostname `www.example.co.uk` yields `example` |
| `SourceLabel.SingleLabelExample` | src/lib/utils.ts:19-24 | hostname `localhost`, which has no dot, is returned whole |
| `Selection.Toggle` | src/hooks/useArticles.ts:81-91 | the toggled index flips membership, every other index keeps its membership, and the size changes by exactly one |
| `Selection.ToggleTwice` | src/hooks/useArticles.ts:81-91 | toggling the same index twice restores the selection |
| `Selection.ToggleCommutes` | src/hooks/useArticles.ts:81-91 | the result of two toggles does not depend on their order |
| `Selection.Clear` | src/hooks/useArticles.ts:93-95 | the cleared selection has no members |
| `UseArticles.FetchArticles` | src/hooks/useArticles.ts:11-23 | on error the state is unchanged; null data becomes `[]`; otherwise the article list is the data; nothing else changes |
| `UseArticles.FetchCuratedArticles` | src/hooks/useArticles.ts:25-37 | the same rule for the curated list, leaving the article list alone |
| `UseArticles.FetchesCommute` | src/hooks/useArticles.ts:97-105 | the two fetches run by the initial load commute, so the order in which they complete is irrelevant |
| `UseArticles.Refetch` | src/hooks/useArticles.ts:116-118 | each list takes its fetched data (null as `[]`) or, on error, keeps its old value; loading and selection are untouched |
| `UseArticles.LoadData` | src/hooks/useArticles.ts:97-105 | after loading the flag is off, the selection is untouched, and each list follows its fetch's reply |
| `UseArticles.SelectedArticles` | src/hooks/useArticles.ts:41-43 | the filtered list is never longer than `articles` |
| `UseArticles.SelectedArticlesMembers` | src/hooks/useArticles.ts:41-43 | an article is in the filtered list exactly when it is in `articles` and its index is selected |
| `UseArticles.SelectedArticlesCons` | src/hooks/useArticles.ts:41-43 | the first article is kept exactly when its index is selected, ahead of the filtered rest |
| `UseArticles.SelectedArticlesCount` | src/hooks/useArticles.ts:41-43 | each article occurs as often as in `articles` when its index is selected and never otherwise, however often the index is repeated |
| `UseArticles.SelectedArticlesAppend` | src/hooks/useArticles.ts:41-43 | filtering distributes over concatenation, so the relative order of `articles` is kept |
| `UseArticles.SelectedArticlesByMembership` | src/hooks/useArticles.ts:41-43 | the result depends only on which articles' indices are selected: order, duplicates and unknown indices in `selectedIndices` make no difference |
| `UseArticles.Payload` | src/hooks/useArticles.ts:41-46 | the payload has one row per selected article, and each row is that article minus its index |
| `UseArticles.PayloadRowsFromSelection` | src/hooks/useArticles.ts:41-46 | every payload row is the row of some article in `articles` whose index is selected |
| `UseArticles.PayloadCoversSelection` | src/hooks/useArticles.ts:41-46 | every article in `articles` whose index is selected contributes its row to the payload |
| `UseArticles.AddToCuratedList` | src/hooks/useArticles.ts:39-61 | the payload is sent as an insert; resolves to true exactly when the insert succeeds; on failure nothing changes; on success the curated list follows the refetch, and a failed refetch leaves it unchanged |
| `UseArticles.RemoveFromCuratedList` | src/hooks/useArticles.ts:63-79 | a delete of the given index is sent; the same write-then-refetch rule as for the insert |
| `UseArticles.ToggleArticleSelection` | src/hooks/useArticles.ts:81-91 | only the selection changes, and only at the given index |
| `UseArticles.ClearSelection` | src/hooks/useArticles.ts:93-95 | only the selection changes, and it becomes empty |
| `RemoteStore.Stamp` | src/hooks/useArticles.ts:45 | the store gives a batch consecutive identifiers and otherwise keeps each row as sent |
| `RemoteStore.Insert` | src/hooks/useArticles.ts:48-50 | existing rows are kept, the batch is appended with fresh identifiers, and table validity is preserved |
| `RemoteStore.Without` | src/hooks/useArticles.ts:65-68 | exactly the rows with a different identifier remain |
| `RemoteStore.Delete` | src/hooks/useArticles.ts:65-68 | exactly the rows with a different identifier remain; validity is preserved; deleting a present identifier removes exactly one row |
| `RemoteStore.WithoutAscending` | src/hooks/useArticles.ts:65-68 | deleting keeps identifiers increasing along the rows |
| `RemoteStore.WithoutPresentShrinks` | src/hooks/useArticles.ts:65-68 | with distinct identifiers, deleting a present identifier removes one row |
| `RemoteStore.WithoutAbsentKeeps` | src/hooks/useArticles.ts:65-68 | deleting an identifier no row carries changes nothing |
| `RemoteStore.Reverse` | src/hooks/useArticles.ts:30 | reversal keeps length, members and multiplicities |
| `RemoteStore.Select` | src/hooks/useArticles.ts:27-30 | reading back returns every row, and only those, in strictly descending identifier order |
| `IndexPage.ArrayFrom` | src/pages/Index.tsx:40 | `Array.from` of the selection lists each member exactly once |
| `IndexPage.HandleCurateList` | src/pages/Index.tsx:29-56 | an empty selection returns early without calling the hook, sending anything or setting `isProcessing`; otherwise the listing of the whole selection is passed to the hook, whose insert holds exactly the rows of the articles whose index is selected; `isProcessing` is true while pending and false afterwards; success clears the selection, and failure keeps the hook state; after a successful insert the curated list is the read-back, or stays as it was when the read-back fails; `loading` is never touched |
| `IndexPage.CuratePayloadIgnoresOrder` | src/pages/Index.tsx:40 | whatever order `Array.from` lists the selection in, the insert payload is the same |
| `IndexPage.HandleRemoveFromCurated` | src/pages/Index.tsx:58-72 | a delete of the given index is sent; the selection, the article list and `isProcessing` are never touched; success mirrors the delete's reply, and failure changes nothing; after a successful delete the curated list is the read-back, or the page is unchanged when the read-back fails; `loading` is never touched |
| `IndexPage.ClickRemove` | src/pages/Index.tsx:190-194 | the remove button of the curated card at position `k` sends a delete of that card's own `index`, and leaves the selection alone |
| `Session.StripAllStamp` | src/hooks/useArticles.ts:45-50 | a batch the store has stamped strips back to the batch sent |
| `Session.SelectContent` | src/hooks/useArticles.ts:27-30 | ignoring identifiers and order, the read-back content equals the table's content |
| `Session.InsertedContent` | src/hooks/useArticles.ts:48-56 | after an insert, the read-back content is the old content plus the batch |
| `Session.InsertedKeeps` | src/hooks/useArticles.ts:48-50 | after an insert, every previously visible record is still visible |
| `Session.AddedRowsReachView` | src/hooks/useArticles.ts:39-61 | when the insert the hook sent succeeds and the refetch reads the table back, the view holds the old records plus one copy of each payload row, in strictly descending identifier order |
| `Session.SwallowedRefetchLeavesStaleView` | src/hooks/useArticles.ts:55-56 | if the refetch after a non-empty insert fails, the operation still resolves to true, but the view no longer matches the table |
| `Session.DeleteFromView` | src/hooks/useArticles.ts:63-79 | deleting the identifier of a visible record removes exactly that record from the read-back view |
| `Session.RemoveClickedRecord` | src/pages/Index.tsx:190-194 | when the delete a curated card's remove button sends succeeds and the table is read back, exactly that card's record leaves the view, every other one stays, and the selection is untouched |

## Left out

- The code curates additively: `addToCuratedList` only inserts and `removeFromCuratedList` deletes one identifier. It has no step that deletes the whole curated list or replaces it, so none is modelled.
- The code sorts nothing itself. Both reads ask the server for `order('index', { ascending: false })` (src/hooks/useArticles.ts:16 and :30). Only the curated read-back is modelled as descending, by `RemoteStore.Select`. The article list is taken in whatever order the reply carries: `FetchArticles` accepts any `Fetched` data, so the insert payload keeps the order of that list and no order of the source table is promised.
- `cn` (src/lib/utils.ts:4-6) wraps class-name libraries whose code is not part of this model.
- WHATWG URL parsing in `new URL` is not modelled. Its outcome is the `Option<string>` hostname argument of `ExtractSourceFromUrl`, with `None` meaning the constructor threw.
- The hosted database client is not modelled. Each call becomes its reply, passed in as a parameter. `RemoteStore` is a model of the table's behaviour: it assumes serial identifiers in insertion order, and the real server's identifier assignment is outside the application.
- `Promise.all` in the initial load and `refetch` runs the two fetches concurrently. They are modelled one after the other. `FetchesCommute` shows that the completion order does not matter.
- React state mechanics are not modelled: updater functions, effects and re-renders. Nor is the race in which the user toggles the selection while a curate call is pending. `HandleCurateList` works on the selection as it was when the handler started.
- Toast messages, `console.error` logging, the loading screen and all rendering are not modelled. This includes the "Curate List" button, which only appears when the selection is non-empty and is disabled while processing, and the article card component with its locale date formatting.
- The source label is not computed anywhere in the modelled code paths. Cards display the stored `source` field, so `ExtractSourceFromUrl` stands alone.
- JavaScript numbers are modelled as unbounded integers. Identifiers are integers well within the exactly representable range.
