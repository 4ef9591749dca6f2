/** The collaborators the drivers call, passed explicitly instead of through the
    global client handle. */
module Services {
  import opened Wrappers
  import opened Models

  /** `extractClaims`: `extract_claims_from_query`; `optimize`: `optimize_claim`;
      `queryFor`: `get_query_for_wiki_article`; `search`: `get_first_n_results_urls`
      with its result count; `scrape`: `scrape_wikipedia_content` or what it raised;
      `judge`: `find_answer_in_article` on (content, claim), or what it raised. */
  datatype Services = Services(
    extractClaims: string -> seq<string>,
    optimize: string -> string,
    queryFor: string -> string,
    search: (string, int) -> Option<seq<string>>,
    scrape: string -> Attempt<Option<string>>,
    judge: (string, string) -> Attempt<Option<ClaimResult>>)
}
