/**
 * The dataset registry and the selection made from the `data` query
 * parameter (main.js lines 3-31).
 */
module Datasets {
  import opened Wrappers

  /** One registry entry: the page title, the description and the JSON location. */
  datatype Dataset = Dataset(title: string, description: string, filePath: string)

  const DefaultKey: string := "videogames"

  const VideoGames := Dataset(
    "Video Game Sales",
    "Top 100 Most Sold Video Games Grouped by Platform",
    "https://cdn.rawgit.com/freeCodeCamp/testable-projects-fcc/a80ce8f9/src/data/tree_map/video-game-sales-data.json")

  const Movies := Dataset(
    "Movie Sales",
    "Top 100 Highest Grossing Movies Grouped By Genre",
    "https://cdn.rawgit.com/freeCodeCamp/testable-projects-fcc/a80ce8f9/src/data/tree_map/movie-data.json")

  const Kickstarter := Dataset(
    "Kickstarter Pledges",
    "Top 100 Most Pledged Kickstarter Campaigns Grouped By Category",
    "https://cdn.rawgit.com/freeCodeCamp/testable-projects-fcc/a80ce8f9/src/data/tree_map/kickstarter-funding-data.json")

  /** The fixed three-entry table `DATASETS`. */
  function Registry(): (m: map<string, Dataset>)
    ensures m.Keys == {"videogames", "movies", "kickstarter"}
    ensures DefaultKey in m && m[DefaultKey] == VideoGames
  {
    map["videogames" := VideoGames, "movies" := Movies, "kickstarter" := Kickstarter]
  }

  /**
   * The key looked up: `param || DEFAULT_DATASET`. `param` is the result of
   * `URLSearchParams.get('data')`, `None` when the parameter is absent. Only
   * the absent and the empty value are falsy; every other string is kept.
   */
  function SelectedKey(param: Option<string>): (k: string)
    ensures param == None || param == Some("") ==> k == DefaultKey
    ensures param.Some? && param.value != "" ==> k == param.value
  {
    match param
    case None => DefaultKey
    case Some(s) => if s == "" then DefaultKey else s
  }

  /**
   * `DATASETS[key]`: the entry for the selected key, or `None` (JavaScript's
   * `undefined`) when the key is not in the table. An unknown key is not
   * replaced by the default.
   */
  function Select(param: Option<string>): (r: Option<Dataset>)
    ensures param == None || param == Some("") ==> r == Some(VideoGames)
    ensures param.Some? && param.value != "" ==>
              (r.Some? <==> param.value in Registry()) &&
              (r.Some? ==> r.value == Registry()[param.value])
  {
    var key := SelectedKey(param);
    if key in Registry() then Some(Registry()[key]) else None
  }

  /** What the page shows or how it fails at lines 30-31. */
  datatype Heading = Shown(title: string, description: string) | TypeErrorOnUndefined

  /** Lines 30-31 as written: reading `TITLE` of `undefined` throws. */
  function PageHeading(param: Option<string>): (h: Heading)
    ensures h.Shown? <==> Select(param).Some?
    ensures h.Shown? ==> h.title == Select(param).value.title &&
                         h.description == Select(param).value.description
  {
    match Select(param)
    case Some(d) => Shown(d.title, d.description)
    case None => TypeErrorOnUndefined
  }

  /** A non-empty `data` value naming no table entry stops the script at line 30. */
  lemma UnknownKeyHasNoHeading(key: string)
    requires key != "" && key !in Registry()
    ensures Select(Some(key)) == None
    ensures PageHeading(Some(key)) == TypeErrorOnUndefined
  {
  }

  /** Concretely: `?data=movie` (a misspelt key) yields no dataset. */
  lemma MisspeltKeyExample()
    ensures PageHeading(Some("movie")) == TypeErrorOnUndefined
  {
    UnknownKeyHasNoHeading("movie");
  }

  /**
   * The selection with the fallback evidently meant by `DEFAULT_DATASET`:
   * every parameter value selects a dataset.
   */
  function SelectOrDefault(param: Option<string>): (d: Dataset)
    ensures param.Some? && param.value in Registry() ==> d == Registry()[param.value]
    ensures param.None? || param.value !in Registry() ==> d == VideoGames
    ensures d in Registry().Values
  {
    match Select(param)
    case Some(d) => d
    case None => VideoGames
  }

  /** The corrected heading: the page always shows some dataset's title. */
  function CorrectedPageHeading(param: Option<string>): (h: Heading)
    ensures h.Shown?
    ensures Select(param).Some? ==> h == PageHeading(param)
  {
    var d := SelectOrDefault(param);
    Shown(d.title, d.description)
  }
}
