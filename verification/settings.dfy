/**
  The configuration fields the tab and window logic reads (the `Config`
  dataclass of browser/utils.py). Loading and caching the JSON file is not
  modelled: a configuration is a value handed to the operations that read it.
*/
module Settings {

  datatype Config = Config(
    homepage: string,
    searchEngine: string,
    closeAfterLastTab: bool)

  /** The field defaults of the `Config` dataclass (browser/utils.py). */
  function DefaultConfig(): Config {
    Config("https://google.com", "https://google.com/search?q=%s", false)
  }
}
