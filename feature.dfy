/** The result record every provider returns (FeatureItem). Dafny's equality on datatype values
    is structural over all five fields, as the record's operator== is. */
module Feature {

  /** `itemType` is the record's `type` field ("search", "app", "calculator", ...). */
  datatype FeatureItem = FeatureItem(title: string, subtitle: string, icon: string, data: string, itemType: string)

  /** QList::mid(0, n): the first n items, or all of them when there are fewer. */
  function TakeAtMost<T>(xs: seq<T>, n: nat): (r: seq<T>)
    ensures |r| == if |xs| < n then |xs| else n
    ensures r == xs[..|r|]
  {
    if |xs| <= n then xs else xs[..n]
  }

  /** What executing an item asks of the desktop; the launching itself is outside the model. */
  datatype Effect =
    | NoEffect
    | OpenUrl(url: string)
    | StartProgram(commandLine: string)
    | RunShell(command: string)
    | SetClipboardText(text: string)
    | SetClipboardImage(path: string)
}
