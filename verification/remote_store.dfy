/**
 * A model of the hosted `curated_list` table the hook talks to. The table
 * itself lives outside the application: this module states the behaviour the
 * hook relies on. Rows are kept in insertion order and the table hands out
 * identifiers from a serial counter, so `index` grows along the rows.
 */
module RemoteStore {
  import opened Articles

  datatype Store = Store(rows: seq<Article>, nextIndex: int)

  /** Every identifier was issued by the counter, and identifiers grow along the rows. */
  predicate Valid(s: Store) {
    && (forall k :: 0 <= k < |s.rows| ==> s.rows[k].index < s.nextIndex)
    && (forall j, k :: 0 <= j < k < |s.rows| ==> s.rows[j].index < s.rows[k].index)
  }

  /** Assigns consecutive identifiers from `start` to the rows of a batch. */
  function Stamp(rows: seq<ArticleRow>, start: int): (recs: seq<Article>)
    ensures |recs| == |rows|
    ensures forall k :: 0 <= k < |recs| ==> recs[k].index == start + k
    ensures forall k :: 0 <= k < |recs| ==> Strip(recs[k]) == rows[k]
    decreases |rows|
  {
    if rows == [] then []
    else
      StripWithIndex(rows[0], start);
      [WithIndex(rows[0], start)] + Stamp(rows[1..], start + 1)
  }

  /** `insert(rows)` on success: the batch is appended with fresh identifiers. */
  function Insert(s: Store, rows: seq<ArticleRow>): (r: Store)
    ensures |r.rows| == |s.rows| + |rows|
    ensures r.rows[..|s.rows|] == s.rows
    ensures forall k :: 0 <= k < |rows| ==>
              Strip(r.rows[|s.rows| + k]) == rows[k] && r.rows[|s.rows| + k].index >= s.nextIndex
    ensures Valid(s) ==> Valid(r)
  {
    var added := Stamp(rows, s.nextIndex);
    Store(s.rows + added, s.nextIndex + |rows|)
  }

  /** The rows whose identifier differs from `index`, in their original order. */
  function Without(rows: seq<Article>, index: int): (r: seq<Article>)
    ensures |r| <= |rows|
    ensures forall a :: a in r <==> a in rows && a.index != index
    decreases |rows|
  {
    if rows == [] then []
    else if rows[0].index == index then Without(rows[1..], index)
    else [rows[0]] + Without(rows[1..], index)
  }

  predicate Ascending(rows: seq<Article>) {
    forall j, k :: 0 <= j < k < |rows| ==> rows[j].index < rows[k].index
  }

  lemma {:induction false} WithoutAscending(rows: seq<Article>, index: int)
    requires Ascending(rows)
    ensures Ascending(Without(rows, index))
    decreases |rows|
  {
    if rows != [] {
      WithoutAscending(rows[1..], index);
      var tail := Without(rows[1..], index);
      forall a | a in tail
        ensures rows[0].index < a.index
      {
        var k :| 1 <= k < |rows| && rows[k] == a;
      }
    }
  }

  /** With distinct identifiers, removing a present identifier removes exactly one row. */
  lemma {:induction false} WithoutPresentShrinks(rows: seq<Article>, index: int)
    requires Ascending(rows)
    requires exists k :: 0 <= k < |rows| && rows[k].index == index
    ensures |Without(rows, index)| == |rows| - 1
    decreases |rows|
  {
    if rows[0].index == index {
      WithoutAbsentKeeps(rows[1..], index);
    } else {
      var k :| 0 <= k < |rows| && rows[k].index == index;
      assert rows[1..][k - 1].index == index;
      WithoutPresentShrinks(rows[1..], index);
    }
  }

  /** Removing an identifier nobody carries leaves the rows as they were. */
  lemma {:induction false} WithoutAbsentKeeps(rows: seq<Article>, index: int)
    requires forall k :: 0 <= k < |rows| ==> rows[k].index != index
    ensures Without(rows, index) == rows
    decreases |rows|
  {
    if rows != [] {
      WithoutAbsentKeeps(rows[1..], index);
      assert rows == [rows[0]] + rows[1..];
    }
  }

  /** `delete().eq('index', index)` on success. */
  function Delete(s: Store, index: int): (r: Store)
    ensures forall a :: a in r.rows <==> a in s.rows && a.index != index
    ensures r.nextIndex == s.nextIndex
    ensures Valid(s) ==> Valid(r)
    ensures Valid(s) && (exists k :: 0 <= k < |s.rows| && s.rows[k].index == index) ==>
              |r.rows| == |s.rows| - 1
  {
    var r := Store(Without(s.rows, index), s.nextIndex);
    if Valid(s) then
      WithoutAscending(s.rows, index);
      if exists k :: 0 <= k < |s.rows| && s.rows[k].index == index then
        WithoutPresentShrinks(s.rows, index);
        r
      else r
    else r
  }

  function Reverse<T(!new)>(xs: seq<T>): (r: seq<T>)
    ensures |r| == |xs|
    ensures forall k :: 0 <= k < |r| ==> r[k] == xs[|xs| - 1 - k]
    ensures multiset(r) == multiset(xs)
    ensures forall a :: a in r <==> a in xs
  {
    if xs == [] then []
    else
      assert xs == [xs[0]] + xs[1..];
      Reverse(xs[1..]) + [xs[0]]
  }

  /** `select('*').order('index', { ascending: false })`: every row, newest identifier first. */
  function Select(s: Store): (r: seq<Article>)
    requires Valid(s)
    ensures multiset(r) == multiset(s.rows)
    ensures |r| == |s.rows|
    ensures forall a :: a in r <==> a in s.rows
    ensures forall j, k :: 0 <= j < k < |r| ==> r[j].index > r[k].index
  {
    Reverse(s.rows)
  }
}
