/** The fixed table of conferences the crawler visits. */
module Conferences {

  /** One conference: display name, listing-page URL template (with a `{year}` slot) and inclusive year range. */
  datatype ConferenceConfig = ConferenceConfig(name: string, urlPattern: string, startYear: int, endYear: int)

  /** The key of the conference that is held only in odd years. */
  const BiennialOddKey: string := "iccv"

  /** The compiled-in table, keyed by short conference key. */
  const Configs: map<string, ConferenceConfig> := map[
    "aaai" := ConferenceConfig("AAAI", "https://dblp.org/db/conf/aaai/aaai{year}.html", 2020, 2025),
    "cvpr" := ConferenceConfig("CVPR", "https://dblp.org/db/conf/cvpr/cvpr{year}.html", 2020, 2024),
    "iccv" := ConferenceConfig("ICCV", "https://dblp.org/db/conf/iccv/iccv{year}.html", 2019, 2023)
  ]

}
