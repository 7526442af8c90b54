/**
 * Ordered fallback pattern chains: `_search_regex` and `_html_search_regex` given a list of patterns.
 * Each pattern is an abstract matcher giving the first capture of its first match in the text, or `None`.
 */
module Search {
  import opened Wrappers

  type Matcher = string -> Option<string>

  /** Pattern `i` is the first one in the chain that matches `text`. */
  predicate FirstMatching(text: string, patterns: seq<Matcher>, i: int) {
    0 <= i < |patterns| && patterns[i](text).Some? && forall j :: 0 <= j < i ==> patterns[j](text).None?
  }

  /**
   * The capture of the first pattern that matches, tried strictly in list order; a later pattern is
   * consulted only when every earlier one fails.
   */
  function SearchRegex(text: string, patterns: seq<Matcher>): (r: Option<string>)
    ensures r.None? <==> forall i :: 0 <= i < |patterns| ==> patterns[i](text).None?
    ensures forall i :: FirstMatching(text, patterns, i) ==> r == patterns[i](text)
    decreases |patterns|
  {
    if patterns == [] then None
    else match patterns[0](text)
      case Some(c) => Some(c)
      case None =>
        var r := SearchRegex(text, patterns[1..]);
        assert forall i :: FirstMatching(text, patterns, i) ==> i > 0 && FirstMatching(text, patterns[1..], i - 1);
        r
  }

  /** `_html_search_regex`: the same chain, with a non-empty capture passed through `clean_html(...).strip()`. */
  function HtmlSearchRegex(text: string, patterns: seq<Matcher>, clean: string -> string): (r: Option<string>)
    ensures r.None? <==> SearchRegex(text, patterns).None?
    ensures forall i :: FirstMatching(text, patterns, i) && patterns[i](text).value != "" ==>
      r == Some(clean(patterns[i](text).value))
    ensures forall i :: FirstMatching(text, patterns, i) && patterns[i](text).value == "" ==> r == Some("")
  {
    match SearchRegex(text, patterns)
    case None => None
    case Some(c) => Some(if c != "" then clean(c) else c)
  }
}
