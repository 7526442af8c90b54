/** The info dictionaries an extractor hands back to youtube-dl. */
module Info {
  import opened Wrappers

  /**
   * `url_result(url, ie)`: a bare reference `{'_type': 'url', 'url': url, 'ie_key': ie}` that youtube-dl
   * resolves later by running the extractor `ie` (or whichever one claims `url`) on it.
   */
  datatype UrlResult = UrlResult(url: string, ieKey: Option<string>)
}
