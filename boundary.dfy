/**
 * `TSHighlighter::highlight` (src/lib.rs): the entry point behind the C
 * function `ts_highlighter_highlight`.  It looks up the scope, starts the
 * highlighter, renders into the caller's buffer and reports the outcome as
 * an `ErrorCode`.
 */
module Boundary {
  import opened Wrappers
  import Events
  import opened Markup
  import opened Renderer

  /** The codes `highlight` returns to C callers. */
  datatype ErrorCode = Ok | UnknownScope | Timeout | InvalidLanguage

  /**
   * The mapping of `render`'s result: success is `Ok`, an invalid language
   * keeps its name, and both cancellation and an unknown error are reported
   * as `Timeout`.
   */
  function ToErrorCode(rendered: Result<(), Events.Error>): (code: ErrorCode)
    ensures code == Ok <==> rendered.Success?
    ensures code == InvalidLanguage <==> rendered == Failure(Events.InvalidLanguage)
    ensures code == Timeout <==> rendered == Failure(Events.Cancelled) || rendered == Failure(Events.Unknown)
    ensures code != UnknownScope
  {
    if rendered.Success? then Ok
    else if rendered.error.Cancelled? then Timeout
    else if rendered.error.InvalidLanguage? then InvalidLanguage
    else Timeout
  }

  /**
   * The code `highlight` returns, given whether the scope is registered and
   * what starting the highlighter gave: an unknown scope wins over
   * everything, a highlighter that would not start is a `Timeout`, and
   * otherwise the first failure in the event stream decides.
   */
  function HighlightCode(known: bool, started: Result<seq<Events.Event>, Events.Error>): (code: ErrorCode)
    ensures known && started.Failure? ==> code == Timeout
    ensures code == InvalidLanguage <==>
              known && started.Success? && Events.FirstFailure(started.value) == Some(Events.InvalidLanguage)
    ensures code == Timeout <==>
              known && (started.Failure? || Events.FirstFailure(started.value) in {Some(Events.Cancelled), Some(Events.Unknown)})
    ensures code == InvalidLanguage ==> started.Success? && exists i :: 0 <= i < |started.value| && started.value[i] == Events.Fail(Events.InvalidLanguage)
  {
    if !known then UnknownScope
    else if started.Failure? then Timeout
    else
      match Events.FirstFailure(started.value)
      case None => ToErrorCode(Success(()))
      case Some(e) => ToErrorCode(Failure(e))
  }

  /** `Ok` exactly when the scope is known, the highlighter starts, and no event of the stream is a failure. */
  lemma OkExactlyWhenClean(known: bool, started: Result<seq<Events.Event>, Events.Error>)
    ensures HighlightCode(known, started) == Ok <==>
              known && started.Success? && forall i :: 0 <= i < |started.value| ==> !started.value[i].Fail?
  {
  }

  /** `UnknownScope` is returned for an unregistered scope and for nothing else. */
  lemma UnknownScopeExactly(known: bool, started: Result<seq<Events.Event>, Events.Error>)
    ensures HighlightCode(known, started) == UnknownScope <==> !known
  {
  }

  /**
   * `highlight`: `languages` is the set of registered scope names, `started`
   * what `Highlighter::highlight` returned for the scope's configuration
   * (its events, or the error it stopped with), `crIndex` the
   * carriage-return highlight and `attr` the lookup in `attribute_strings`.
   * On an unknown scope or a highlighter that would not start, the buffer is
   * not touched; otherwise it is reset and holds exactly what `render`
   * writes into an empty buffer.
   */
  method Highlight(output: ColorTagRenderer, languages: set<string>, scopeName: string,
                   started: Result<seq<Events.Event>, Events.Error>, source: seq<bv8>,
                   crIndex: Option<nat>, attr: nat -> seq<bv8>, esc: bv8 -> Option<seq<bv8>>)
    returns (code: ErrorCode)
    requires started.Success? ==> Events.SpansInRange(started.value, |source|)
    modifies output
    ensures code == HighlightCode(scopeName in languages, started)
    ensures scopeName !in languages || started.Failure? ==> unchanged(output)
    ensures scopeName in languages && started.Success? ==>
              && output.carriageReturnHighlight == crIndex
              && output.Valid()
              && var run := RunEvents(RenderState([], [0], []), started.value, source, Style(attr, esc, crIndex));
                 match run.failure
                 case Some(_) => output.html == run.state.html && output.lineOffsets == run.state.offsets
                 case None => Output(output.html, output.lineOffsets) == Finish(run.state.html, run.state.offsets)
  {
    if scopeName !in languages {
      return UnknownScope;
    }
    if started.Failure? {
      return Timeout;
    }
    output.Reset();
    output.SetCarriageReturnHighlight(crIndex);
    var result := output.Render(started.value, source, attr, esc);
    RunEventsFailure(RenderState([], [0], []), started.value, source, Style(attr, esc, crIndex));
    code := ToErrorCode(result);
  }
}
