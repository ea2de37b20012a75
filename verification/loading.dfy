/**
 * What happens when a file request completes: the status decision of
 * `loadFile` (scripts/loadresource.js) and of `loadMdFile`
 * (scripts/loadnotes.js), and the order of the steps `loadMdFileToElement`
 * takes on success. The request itself, `alert` and the catalogue builder
 * are not modelled; their calls appear as effects.
 */
module Loading {
  import opened Text

  /** What a `readystatechange` of the request leads to. */
  datatype Outcome = Pending | Success | Alert(message: string)

  /** The state in which the request has completed (`XMLHttpRequest.DONE`). */
  const Done: int := 4

  /** The only status treated as a successful load. */
  const Ok: nat := 200

  /**
   * `loadFile`'s handler: nothing until the request is done; then the
   * success callback on status 200, otherwise an alert naming the status
   * and the URL.
   */
  function LoadFileOutcome(readyState: int, status: nat, url: string): (r: Outcome)
    ensures r.Pending? <==> readyState != Done
    ensures r.Success? <==> readyState == Done && status == Ok
    ensures r.Alert? ==> IsInfix(NatToString(status), r.message) && IsInfix(url, r.message)
  {
    if readyState != Done then Pending
    else if status == Ok then Success
    else
      var head := "HTTP ERROR\n    error code: ";
      var tail := "\n    url: ";
      var message := head + NatToString(status) + tail + url;
      InfixOfConcat(head, NatToString(status), tail + url);
      assert message == head + NatToString(status) + (tail + url);
      InfixOfConcat(head + NatToString(status) + tail, "", url);
      assert message == head + NatToString(status) + tail + "" + url;
      Alert(message)
  }

  /** `loadMdFile`'s handler: the same decision, with an alert naming only the status. */
  function LoadMdFileOutcome(readyState: int, status: nat): (r: Outcome)
    ensures r.Pending? <==> readyState != Done
    ensures r.Success? <==> readyState == Done && status == Ok
    ensures r.Alert? ==> IsInfix(NatToString(status), r.message)
  {
    if readyState != Done then Pending
    else if status == Ok then Success
    else
      InfixOfConcat("error code: ", NatToString(status), "");
      assert "error code: " + NatToString(status) + "" == "error code: " + NatToString(status);
      Alert("error code: " + NatToString(status))
  }

  /** The visible steps of a load into the preview. */
  datatype Effect =
    | FillContent(markdown: string)
    | ShowUrl(text: string, title: string)
    | RebuildCatalogue
    | ShowAlert(message: string)

  /**
   * `loadMdFileToElement(url, element, catalogueRoot)` once the request
   * completes: on success, the response is rendered into the element, the
   * URL display (when the page has one) shows the URL, and the catalogue is
   * rebuilt; otherwise only the alert.
   */
  function LoadIntoElement(readyState: int, status: nat, url: string, response: string, hasUrlDisplay: bool): seq<Effect>
  {
    match LoadFileOutcome(readyState, status, url)
    case Pending => []
    case Alert(m) => [ShowAlert(m)]
    case Success =>
      [FillContent(response)]
      + (if hasUrlDisplay then [ShowUrl(url, "打印 " + url)] else [])
      + [RebuildCatalogue]
  }

  function IndexOf(es: seq<Effect>, e: Effect): (i: int)
    ensures i == -1 <==> e !in es
    ensures i != -1 ==> 0 <= i < |es| && es[i] == e && e !in es[..i]
  {
    if |es| == 0 then -1
    else if es[0] == e then 0
    else
      var j := IndexOf(es[1..], e);
      assert es[1..][..if j == -1 then 0 else j] == es[1..if j == -1 then 1 else j + 1];
      if j == -1 then -1 else j + 1
  }

  /**
   * On status 200 the content is filled exactly once and before the
   * catalogue is rebuilt exactly once; on any other status neither happens
   * and the only effect is an alert naming the status and the URL.
   */
  lemma LoadIntoElementOrder(status: nat, url: string, response: string, hasUrlDisplay: bool)
    ensures var es := LoadIntoElement(Done, status, url, response, hasUrlDisplay);
      status == Ok ==>
        && multiset(es)[FillContent(response)] == 1
        && multiset(es)[RebuildCatalogue] == 1
        && 0 <= IndexOf(es, FillContent(response)) < IndexOf(es, RebuildCatalogue)
    ensures var es := LoadIntoElement(Done, status, url, response, hasUrlDisplay);
      status != Ok ==>
        && |es| == 1 && es[0].ShowAlert?
        && IsInfix(NatToString(status), es[0].message) && IsInfix(url, es[0].message)
        && (forall i :: 0 <= i < |es| ==> !es[i].FillContent? && !es[i].RebuildCatalogue?)
  {
    var es := LoadIntoElement(Done, status, url, response, hasUrlDisplay);
    if status == Ok {
      var mid: seq<Effect> := if hasUrlDisplay then [ShowUrl(url, "打印 " + url)] else [];
      assert es == [FillContent(response)] + mid + [RebuildCatalogue];
      assert es[0] == FillContent(response);
      assert es[|es| - 1] == RebuildCatalogue;
      assert RebuildCatalogue !in es[..|es| - 1];
      assert IndexOf(es, RebuildCatalogue) == |es| - 1;
      assert multiset(es) == multiset([FillContent(response)]) + multiset(mid) + multiset([RebuildCatalogue]);
    }
  }
}
