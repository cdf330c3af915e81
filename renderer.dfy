/**
 * `ColorTagRenderer` (src/lib.rs): turns a highlight event stream over a
 * source buffer into `<color=#…>…</color>` markup, appending to its output
 * buffer `html` and keeping `line_offsets`, the offset of each output line.
 * Every method is proved to write exactly what the functions of module
 * Markup say, and to keep the line index well kept.
 */
module Renderer {
  import opened Wrappers
  import opened Bytes
  import opened Lossy
  import opened Events
  import opened Markup

  /** `BUFFER_HTML_RESERVE_CAPACITY` */
  const HtmlReserveCapacity: nat := 10 * 1024
  /** `BUFFER_LINES_RESERVE_CAPACITY` */
  const LinesReserveCapacity: nat := 1000

  /**
   * `shrink_and_clear`: a vector longer than `capacity` is first cut down to
   * it (its storage then shrinks, which is not modelled); either way it ends
   * empty.
   */
  method ShrinkAndClear<T>(v: seq<T>, capacity: nat) returns (cleared: seq<T>)
    ensures cleared == []
  {
    cleared := v;
    if |cleared| > capacity {
      cleared := cleared[..capacity];
    }
    cleared := [];
  }

  class ColorTagRenderer {
    var html: seq<bv8>
    var lineOffsets: seq<nat>
    var carriageReturnHighlight: Option<nat>

    /** The line index is well kept (module Markup). */
    ghost predicate Valid()
      reads this
    {
      LineIndex(html, lineOffsets)
    }

    /** `ColorTagRenderer::new`: an empty buffer, the one offset 0, no carriage-return highlight. */
    constructor ()
      ensures html == [] && lineOffsets == [0] && carriageReturnHighlight == None
      ensures Valid()
    {
      html := [];
      lineOffsets := [0];
      carriageReturnHighlight := None;
    }

    /** `set_carriage_return_highlight` */
    method SetCarriageReturnHighlight(highlight: Option<nat>)
      modifies this
      ensures carriageReturnHighlight == highlight
      ensures html == old(html) && lineOffsets == old(lineOffsets)
    {
      carriageReturnHighlight := highlight;
    }

    /**
     * `reset`: an empty buffer and the one offset 0, whatever the state was;
     * so resetting twice is resetting once.  The carriage-return highlight
     * is kept.
     */
    method Reset()
      modifies this
      ensures html == [] && lineOffsets == [0]
      ensures carriageReturnHighlight == old(carriageReturnHighlight)
      ensures Valid()
    {
      html := ShrinkAndClear(html, HtmlReserveCapacity);
      lineOffsets := ShrinkAndClear(lineOffsets, LinesReserveCapacity);
      lineOffsets := lineOffsets + [0];
    }

    /** The style a render uses: the caller's callbacks and this renderer's carriage-return highlight. */
    function StyleOf(attr: nat -> seq<bv8>, esc: bv8 -> Option<seq<bv8>>): Style
      reads this
    {
      Style(attr, esc, carriageReturnHighlight)
    }

    /**
     * `render`: runs the events in order, keeping a local stack of open
     * highlights.  The first failure is returned as it is, at once, with the
     * buffer and index left as they were at that point (by RunEventsFailure,
     * that failure is the stream's first).  Otherwise the
     * buffer is made to end in a line feed, a last offset equal to its length
     * is dropped, and the render succeeds.
     */
    method Render(events: seq<Event>, source: seq<bv8>, attr: nat -> seq<bv8>, esc: bv8 -> Option<seq<bv8>>)
      returns (result: Result<(), Error>)
      requires SpansInRange(events, |source|)
      modifies this
      ensures carriageReturnHighlight == old(carriageReturnHighlight)
      ensures var run := RunEvents(RenderState(old(html), old(lineOffsets), []), events, source, StyleOf(attr, esc));
              match run.failure
              case Some(e) =>
                result == Failure(e) && html == run.state.html && lineOffsets == run.state.offsets
              case None =>
                result == Success(()) && Output(html, lineOffsets) == Finish(run.state.html, run.state.offsets)
      ensures old(Valid()) ==> Valid()
      ensures old(Valid()) && result.Success? ==>
                html != [] && html[|html| - 1] == LF && lineOffsets[|lineOffsets| - 1] < |html|
    {
      var failure := RunLoop(events, source, attr, esc);
      if failure.Some? {
        return Failure(failure.value);
      }
      EndLastLine();
      return Success(());
    }

    /**
     * `render`'s loop over the events, with its local stack of open
     * highlights; it stops at the first failure and says which.
     */
    method RunLoop(events: seq<Event>, source: seq<bv8>, attr: nat -> seq<bv8>, esc: bv8 -> Option<seq<bv8>>)
      returns (failure: Option<Error>)
      requires SpansInRange(events, |source|)
      modifies this
      ensures carriageReturnHighlight == old(carriageReturnHighlight)
      ensures var run := RunEvents(RenderState(old(html), old(lineOffsets), []), events, source, StyleOf(attr, esc));
              failure == run.failure && html == run.state.html && lineOffsets == run.state.offsets
      ensures old(Valid()) ==> Valid()
    {
      ghost var style := StyleOf(attr, esc);
      ghost var run := RunEvents(RenderState(html, lineOffsets, []), events, source, style);
      if Valid() {
        RunEventsKeepsIndex(RenderState(html, lineOffsets, []), events, source, style);
      }
      var highlights: seq<nat> := [];
      for i := 0 to |events|
        invariant SpansInRange(events[i..], |source|)
        invariant RunEvents(RenderState(html, lineOffsets, highlights), events[i..], source, style) == run
        invariant carriageReturnHighlight == old(carriageReturnHighlight)
      {
        assert events[i..][0] == events[i] && events[i..][1..] == events[i + 1..];
        RunEventsCons(RenderState(html, lineOffsets, highlights), events[i..], source, style);
        if events[i].Fail? {
          return Some(events[i].error);
        }
        highlights := RenderEvent(events[i], source, highlights, attr, esc);
      }
      assert events[|events|..] == [];
      return None;
    }

    /** One iteration of `render`'s loop, for an event other than a failure; `highlights` is the local stack. */
    method RenderEvent(e: Event, source: seq<bv8>, highlights: seq<nat>, attr: nat -> seq<bv8>, esc: bv8 -> Option<seq<bv8>>)
      returns (stack: seq<nat>)
      requires !e.Fail? && (e.Source? ==> e.start <= e.end <= |source|)
      modifies this
      ensures RenderState(html, lineOffsets, stack)
           == EventStep(RenderState(old(html), old(lineOffsets), highlights), e, source, StyleOf(attr, esc))
      ensures carriageReturnHighlight == old(carriageReturnHighlight)
    {
      match e
      case Start(s) =>
        stack := highlights + [s];
        StartHighlight(s, attr);
      case End =>
        stack := Pop(highlights);
        EndHighlight();
      case Source(start, end) =>
        stack := highlights;
        AddText(source[start..end], highlights, attr, esc);
    }

    /** The fix-up at the end of a successful `render`. */
    method EndLastLine()
      modifies this
      ensures Output(html, lineOffsets) == Finish(old(html), old(lineOffsets))
      ensures carriageReturnHighlight == old(carriageReturnHighlight)
      ensures old(Valid()) ==> Valid() && html != [] && html[|html| - 1] == LF && lineOffsets[|lineOffsets| - 1] < |html|
    {
      var h := html;
      if h == [] || h[|h| - 1] != LF {
        h := h + [LF];
      }
      var offsets := lineOffsets;
      if |offsets| > 0 && offsets[|offsets| - 1] == |h| {
        offsets := offsets[..|offsets| - 1];
      }
      assert Output(h, offsets) == Finish(html, lineOffsets);
      if Valid() {
        FinishEndsLines(html, lineOffsets);
      }
      html, lineOffsets := h, offsets;
    }

    /** `lines()`: the slices of the buffer the index delimits; joined, they give back the buffer. */
    function Lines(): (lines: seq<seq<bv8>>)
      reads this
      requires Valid()
      ensures |lines| == |lineOffsets|
      ensures Sliceable(html, lineOffsets)
      ensures forall i :: 0 <= i < |lines| ==> lines[i] == html[lineOffsets[i]..LineEnd(html, lineOffsets, i)]
      ensures Concat(lines) == html
    {
      LinesRoundTrip(html, lineOffsets);
      LineSlices(html, lineOffsets)
    }

    /** `add_carriage_return`: the zero-width marker of a lone carriage return, if one is configured. */
    method AddCarriageReturn(attr: nat -> seq<bv8>)
      modifies this
      ensures html == old(html) + CrMarker(attr, carriageReturnHighlight)
      ensures lineOffsets == old(lineOffsets) && carriageReturnHighlight == old(carriageReturnHighlight)
    {
      if carriageReturnHighlight.Some? {
        var hexcolor := attr(carriageReturnHighlight.value);
        if hexcolor != [] {
          AppendAssoc(html, CrPrefix, hexcolor);
          AppendAssoc(html, CrPrefix + hexcolor, CrSuffix);
          html := html + CrPrefix;
          html := html + hexcolor;
          html := html + CrSuffix;
        }
      }
    }

    /** `start_highlight`: the open tag of `h`, or nothing when its attribute is empty. */
    method StartHighlight(h: nat, attr: nat -> seq<bv8>)
      modifies this
      ensures html == old(html) + OpenTag(h, attr)
      ensures lineOffsets == old(lineOffsets) && carriageReturnHighlight == old(carriageReturnHighlight)
    {
      var hexcolor := attr(h);
      if hexcolor != [] {
        AppendAssoc(html, OpenPrefix, hexcolor);
        AppendAssoc(html, OpenPrefix + hexcolor, OpenSuffix);
        html := html + OpenPrefix;
        html := html + hexcolor;
        html := html + OpenSuffix;
      }
    }

    /** `end_highlight`: always `</color>`. */
    method EndHighlight()
      modifies this
      ensures html == old(html) + CloseTag
      ensures lineOffsets == old(lineOffsets) && carriageReturnHighlight == old(carriageReturnHighlight)
    {
      html := html + CloseTag;
    }

    /** One iteration of `add_text`'s loop: byte `c`, with the flag `lastCharWasCr` carried in and out. */
    method AddByte(c: bv8, lastCharWasCr: bool, highlights: seq<nat>, attr: nat -> seq<bv8>, esc: bv8 -> Option<seq<bv8>>)
      returns (crPending: bool)
      modifies this
      ensures TextState(html, lineOffsets, crPending)
           == ByteStep(TextState(old(html), old(lineOffsets), lastCharWasCr), c, highlights, StyleOf(attr, esc))
      ensures carriageReturnHighlight == old(carriageReturnHighlight)
    {
      crPending := lastCharWasCr;
      if c == CR {
        crPending := true;
        return;
      }
      if crPending {
        if c != LF {
          AddCarriageReturn(attr);
        }
        crPending := false;
      }
      if c == LF {
        CloseAll(|highlights|);
        html := html + [c];
        lineOffsets := lineOffsets + [|html|];
        ReopenAll(highlights, attr);
      } else {
        var escape := esc(c);
        if escape.Some? {
          html := html + escape.value;
        } else {
          html := html + [c];
        }
      }
    }

    /** The `end_highlight` for each open highlight, before a line feed. */
    method CloseAll(n: nat)
      modifies this
      ensures html == old(html) + CloseTags(n)
      ensures lineOffsets == old(lineOffsets) && carriageReturnHighlight == old(carriageReturnHighlight)
    {
      for k := 0 to n
        invariant html == old(html) + CloseTags(k)
        invariant lineOffsets == old(lineOffsets) && carriageReturnHighlight == old(carriageReturnHighlight)
      {
        AppendAssoc(old(html), CloseTags(k), CloseTag);
        EndHighlight();
      }
    }

    /** The `start_highlight` for each open highlight, outermost first, after a line feed. */
    method ReopenAll(highlights: seq<nat>, attr: nat -> seq<bv8>)
      modifies this
      ensures html == old(html) + Reopen(highlights, attr)
      ensures lineOffsets == old(lineOffsets) && carriageReturnHighlight == old(carriageReturnHighlight)
    {
      for k := 0 to |highlights|
        invariant html == old(html) + Reopen(highlights[..k], attr)
        invariant lineOffsets == old(lineOffsets) && carriageReturnHighlight == old(carriageReturnHighlight)
      {
        assert highlights[..k + 1][..k] == highlights[..k];
        AppendAssoc(old(html), Reopen(highlights[..k], attr), OpenTag(highlights[k], attr));
        StartHighlight(highlights[k], attr);
      }
      assert highlights[..|highlights|] == highlights;
    }

    /** The bytes of one decoded chunk, run through `add_text`'s loop body in order. */
    method AddChunk(chunk: seq<bv8>, lastCharWasCr: bool, highlights: seq<nat>, attr: nat -> seq<bv8>, esc: bv8 -> Option<seq<bv8>>)
      returns (crPending: bool)
      modifies this
      ensures TextState(html, lineOffsets, crPending)
           == RunText(TextState(old(html), old(lineOffsets), lastCharWasCr), chunk, highlights, StyleOf(attr, esc))
      ensures carriageReturnHighlight == old(carriageReturnHighlight)
    {
      ghost var style := StyleOf(attr, esc);
      ghost var target := RunText(TextState(html, lineOffsets, lastCharWasCr), chunk, highlights, style);
      crPending := lastCharWasCr;
      for j := 0 to |chunk|
        invariant carriageReturnHighlight == old(carriageReturnHighlight)
        invariant RunText(TextState(html, lineOffsets, crPending), chunk[j..], highlights, style) == target
      {
        assert chunk[j..][0] == chunk[j] && chunk[j..][1..] == chunk[j + 1..];
        crPending := AddByte(chunk[j], crPending, highlights, attr, esc);
      }
    }

    /**
     * `add_text`: reads the lossily decoded bytes of `src` one by one, with
     * the highlights `highlights` open, as `RunText` says; the
     * carriage-return flag starts clear for every span.
     */
    method AddText(src: seq<bv8>, highlights: seq<nat>, attr: nat -> seq<bv8>, esc: bv8 -> Option<seq<bv8>>)
      modifies this
      ensures var t := RunText(TextState(old(html), old(lineOffsets), false), LossyBytes(src), highlights, StyleOf(attr, esc));
              html == t.html && lineOffsets == t.offsets
      ensures carriageReturnHighlight == old(carriageReturnHighlight)
    {
      ghost var style := StyleOf(attr, esc);
      ghost var target := RunText(TextState(html, lineOffsets, false), LossyBytes(src), highlights, style);
      var lastCharWasCr := false;
      var decoder := new LossyUtf8(src);
      while true
        invariant carriageReturnHighlight == old(carriageReturnHighlight)
        invariant RunText(TextState(html, lineOffsets, lastCharWasCr), decoder.Remaining(), highlights, style) == target
        decreases Measure(decoder.bytes, decoder.inReplacement)
      {
        var piece := decoder.Next();
        if piece.None? {
          break;
        }
        var chunk := piece.value;
        RunTextSplit(TextState(html, lineOffsets, lastCharWasCr), chunk, decoder.Remaining(), highlights, style);
        lastCharWasCr := AddChunk(chunk, lastCharWasCr, highlights, attr, esc);
      }
    }
  }
}
