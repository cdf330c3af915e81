/**
 * The stream `render` consumes: `Result<HighlightEvent, Error>` items from
 * the tree-sitter highlighter, flattened into one datatype.
 */
module Events {
  import opened Wrappers

  /** `tree_sitter_highlight::Error`. */
  datatype Error = Cancelled | InvalidLanguage | Unknown

  /**
   * `Ok(HighlightStart(h))`, `Ok(HighlightEnd)`, `Ok(Source { start, end })`
   * and `Err(error)`.  A highlight is its index (`Highlight(usize)`).
   */
  datatype Event = Start(highlight: nat) | End | Source(start: nat, end: nat) | Fail(error: Error)

  /**
   * Every source span that `render` reaches, that is every one before the
   * first failure, is a slice `source[start..end]` that exists in a source of
   * `n` bytes (Rust panics on any other).
   */
  predicate SpansInRange(events: seq<Event>, n: nat)
    decreases |events|
  {
    || events == []
    || (match events[0]
        case Fail(_) => true
        case Source(start, end) => start <= end <= n && SpansInRange(events[1..], n)
        case _ => SpansInRange(events[1..], n))
  }

  /** The first failure in the stream, if any: the error of the failure no other failure precedes. */
  function FirstFailure(events: seq<Event>): (r: Option<Error>)
    ensures r.None? <==> forall i :: 0 <= i < |events| ==> !events[i].Fail?
    ensures r.Some? ==>
              exists i :: 0 <= i < |events| && events[i] == Fail(r.value) && forall j :: 0 <= j < i ==> !events[j].Fail?
    decreases |events|
  {
    if events == [] then None
    else if events[0].Fail? then Some(events[0].error)
    else
      var r := FirstFailure(events[1..]);
      assert forall i :: 1 <= i < |events| ==> events[i] == events[1..][i - 1];
      if r.Some? then
        ghost var j :| 0 <= j < |events[1..]| && events[1..][j] == Fail(r.value)
                       && forall k :: 0 <= k < j ==> !events[1..][k].Fail?;
        assert events[j + 1] == Fail(r.value);
        assert forall k :: 0 <= k < j + 1 ==> !events[k].Fail?;
        r
      else
        r
  }
}
