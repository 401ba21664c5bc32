/** The module-level variables of `settings` that the batch loops read and write. */
module Settings {
  import opened Wrappers
  import opened Results

  class Globals {
    /** `settings.searching`: cleared by the window to cancel a search. */
    var searching: bool
    /** `settings.keyword_results`: None, or the rows found so far. */
    var keywordResults: Option<seq<Row>>
    /** `settings.keyword_instances`: per file, the instance map of its pages. */
    var keywordInstances: map<string, PageInstances>

    /** `settings.init()`: not searching, no rows, no instances. */
    constructor ()
      ensures !searching && keywordResults == Some([]) && keywordInstances == map[]
    {
      searching := false;
      keywordResults := Some([]);
      keywordInstances := map[];
    }
  }
}
