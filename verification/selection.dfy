/** The set of article indices the user has ticked (`selectedArticles`). */
module Selection {

  /** `toggleArticleSelection`: removes `index` if present, adds it otherwise. */
  function Toggle(selected: set<int>, index: int): (r: set<int>)
    ensures index in r <==> index !in selected
    ensures forall j :: j != index ==> (j in r <==> j in selected)
    ensures index in selected ==> |r| == |selected| - 1
    ensures index !in selected ==> |r| == |selected| + 1
  {
    if index in selected then selected - {index} else selected + {index}
  }

  /** Toggling the same index twice restores the selection. */
  lemma ToggleTwice(selected: set<int>, index: int)
    ensures Toggle(Toggle(selected, index), index) == selected
  {
  }

  /** Toggles of different indices do not interfere: their order does not matter. */
  lemma ToggleCommutes(selected: set<int>, i: int, j: int)
    ensures Toggle(Toggle(selected, i), j) == Toggle(Toggle(selected, j), i)
  {
  }

  /** `clearSelection`: the empty selection. */
  function Clear(): (r: set<int>)
    ensures forall j :: j !in r
    ensures |r| == 0
  {
    {}
  }
}
