/** Configuration constants of the indexer that the modelled code reads. */
module Constants {

  /** Name of the search index every bulk write targets. */
  const IndexName: string := "indexer-database"
}
