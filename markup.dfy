/**
 * What `ColorTagRenderer` (src/lib.rs) writes, as functions of its inputs:
 * the markup for one source byte, for a whole span, and for a whole event
 * stream; the fix-up at the end of a successful render; the line index and
 * the lines it delimits.  The class in module Renderer is proved against
 * these functions, and the lemmas here state what they guarantee.
 */
module Markup {
  import opened Wrappers
  import opened Bytes
  import opened Lossy
  import opened Events

  /** `<color=#` */
  const OpenPrefix: seq<bv8> := [0x3C, 0x63, 0x6F, 0x6C, 0x6F, 0x72, 0x3D, 0x23]
  /** `>` */
  const OpenSuffix: seq<bv8> := [0x3E]
  /** `</color>` */
  const CloseTag: seq<bv8> := [0x3C, 0x2F, 0x63, 0x6F, 0x6C, 0x6F, 0x72, 0x3E]
  /** `<color=` (no `#`: the carriage-return marker is written differently) */
  const CrPrefix: seq<bv8> := [0x3C, 0x63, 0x6F, 0x6C, 0x6F, 0x72, 0x3D]
  /** `></color>` */
  const CrSuffix: seq<bv8> := [0x3E, 0x3C, 0x2F, 0x63, 0x6F, 0x6C, 0x6F, 0x72, 0x3E]

  /**
   * The caller's choices for one render: the attribute text of each
   * highlight (`hexcolor_callback`), the escape of each byte
   * (`util::html_escape`), and the highlight of lone carriage returns.
   */
  datatype Style = Style(attr: nat -> seq<bv8>, esc: bv8 -> Option<seq<bv8>>, cr: Option<nat>)

  /** `start_highlight`: `<color=#`, the attribute, `>`; nothing when the attribute is empty. */
  function OpenTag(h: nat, attr: nat -> seq<bv8>): seq<bv8> {
    if attr(h) == [] then [] else OpenPrefix + attr(h) + OpenSuffix
  }

  /** `n` copies of `</color>`. */
  function CloseTags(n: nat): seq<bv8> {
    if n == 0 then [] else CloseTags(n - 1) + CloseTag
  }

  /** The open tags of `stack`, outermost (first pushed) first. */
  function Reopen(stack: seq<nat>, attr: nat -> seq<bv8>): seq<bv8>
    decreases |stack|
  {
    if stack == [] then [] else Reopen(stack[..|stack| - 1], attr) + OpenTag(stack[|stack| - 1], attr)
  }

  /** `add_carriage_return`: `<color=`, the attribute, `></color>`, or nothing. */
  function CrMarker(attr: nat -> seq<bv8>, cr: Option<nat>): seq<bv8> {
    match cr
    case None => []
    case Some(h) => if attr(h) == [] then [] else CrPrefix + attr(h) + CrSuffix
  }

  /** A byte other than a line break: its escape if it has one, else itself. */
  function Escaped(c: bv8, esc: bv8 -> Option<seq<bv8>>): seq<bv8> {
    match esc(c)
    case Some(escape) => escape
    case None => [c]
  }

  /** The output buffer, the line index and `add_text`'s `last_char_was_cr`. */
  datatype TextState = TextState(html: seq<bv8>, offsets: seq<nat>, lastCharWasCr: bool)

  /** One iteration of `add_text`'s loop, for byte `c` with `stack` open. */
  function ByteStep(st: TextState, c: bv8, stack: seq<nat>, style: Style): (r: TextState)
    ensures st.html <= r.html && st.offsets <= r.offsets
    ensures r.lastCharWasCr <==> c == CR
    ensures c != LF ==> r.offsets == st.offsets
  {
    if c == CR then TextState(st.html, st.offsets, true)
    else
      var html := if st.lastCharWasCr && c != LF then st.html + CrMarker(style.attr, style.cr) else st.html;
      if c == LF then
        var broken := html + CloseTags(|stack|) + [LF];
        TextState(broken + Reopen(stack, style.attr), st.offsets + [|broken|], false)
      else
        TextState(html + Escaped(c, style.esc), st.offsets, false)
  }

  /** `add_text`'s loop over the decoded bytes `bs`. */
  function RunText(st: TextState, bs: seq<bv8>, stack: seq<nat>, style: Style): (r: TextState)
    ensures st.html <= r.html && st.offsets <= r.offsets
    decreases |bs|
  {
    if bs == [] then st else RunText(ByteStep(st, bs[0], stack, style), bs[1..], stack, style)
  }

  /**
   * The line index is well kept: it starts at 0, strictly increases, stays
   * within the buffer, and every entry after the first points just past a
   * line feed.
   */
  ghost predicate LineIndex(html: seq<bv8>, offsets: seq<nat>) {
    && |offsets| >= 1 && offsets[0] == 0
    && (forall i, j :: 0 <= i < j < |offsets| ==> offsets[i] < offsets[j])
    && (forall i :: 0 <= i < |offsets| ==> offsets[i] <= |html|)
    && (forall i :: 0 < i < |offsets| ==> 0 < offsets[i] && html[offsets[i] - 1] == LF)
  }

  /** Appending to the buffer keeps the index. */
  lemma AppendKeepsIndex(html: seq<bv8>, offsets: seq<nat>, more: seq<bv8>)
    requires LineIndex(html, offsets)
    ensures LineIndex(html + more, offsets)
  {
    forall i | 0 < i < |offsets|
      ensures (html + more)[offsets[i] - 1] == LF
    {
    }
  }

  /** Pushing the length of a buffer that has grown and ends in a line feed keeps the index. */
  lemma PushKeepsIndex(html: seq<bv8>, offsets: seq<nat>, more: seq<bv8>)
    requires LineIndex(html, offsets)
    requires more != [] && more[|more| - 1] == LF
    ensures LineIndex(html + more, offsets + [|html + more|])
  {
    AppendKeepsIndex(html, offsets, more);
  }

  /** One byte keeps the index and only appends, to the buffer and to the index. */
  lemma ByteStepKeepsIndex(st: TextState, c: bv8, stack: seq<nat>, style: Style)
    requires LineIndex(st.html, st.offsets)
    ensures var st' := ByteStep(st, c, stack, style);
            && LineIndex(st'.html, st'.offsets)
            && st.html <= st'.html && st.offsets <= st'.offsets
  {
    if c != CR {
      var html := if st.lastCharWasCr && c != LF then st.html + CrMarker(style.attr, style.cr) else st.html;
      AppendKeepsIndex(st.html, st.offsets, html[|st.html|..]);
      assert st.html + html[|st.html|..] == html;
      if c == LF {
        var more := CloseTags(|stack|) + [LF];
        PushKeepsIndex(html, st.offsets, more);
        var broken := html + more;
        assert broken == html + CloseTags(|stack|) + [LF];
        AppendKeepsIndex(broken, st.offsets + [|broken|], Reopen(stack, style.attr));
      } else {
        AppendKeepsIndex(html, st.offsets, Escaped(c, style.esc));
      }
    }
  }

  /** A span keeps the index and only appends, to the buffer and to the index. */
  lemma {:induction false} RunTextKeepsIndex(st: TextState, bs: seq<bv8>, stack: seq<nat>, style: Style)
    requires LineIndex(st.html, st.offsets)
    ensures var st' := RunText(st, bs, stack, style);
            && LineIndex(st'.html, st'.offsets)
            && st.html <= st'.html && st.offsets <= st'.offsets
    decreases |bs|
  {
    if bs != [] {
      ByteStepKeepsIndex(st, bs[0], stack, style);
      RunTextKeepsIndex(ByteStep(st, bs[0], stack, style), bs[1..], stack, style);
    }
  }

  /** A span adds exactly one index entry per line feed it holds. */
  lemma {:induction false} RunTextLineCount(st: TextState, bs: seq<bv8>, stack: seq<nat>, style: Style)
    ensures |RunText(st, bs, stack, style).offsets| == |st.offsets| + Count(bs, LF)
    decreases |bs|
  {
    if bs != [] {
      RunTextLineCount(ByteStep(st, bs[0], stack, style), bs[1..], stack, style);
    }
  }

  /** A span may be processed in two pieces, the flag carried across. */
  lemma {:induction false} RunTextSplit(st: TextState, a: seq<bv8>, b: seq<bv8>, stack: seq<nat>, style: Style)
    ensures RunText(st, a + b, stack, style) == RunText(RunText(st, a, stack, style), b, stack, style)
    decreases |a|
  {
    if a == [] {
      assert a + b == b;
    } else {
      assert (a + b)[0] == a[0] && (a + b)[1..] == a[1..] + b;
      RunTextSplit(ByteStep(st, a[0], stack, style), a[1..], b, stack, style);
    }
  }

  /** The bytes of `bs` that are not carriage returns. */
  function StripCr(bs: seq<bv8>): (r: seq<bv8>)
    ensures Count(r, CR) == 0
    decreases |bs|
  {
    if bs == [] then []
    else if bs[0] == CR then StripCr(bs[1..])
    else [bs[0]] + StripCr(bs[1..])
  }

  /** What a byte other than a carriage return becomes when no marker is due. */
  function Expand(c: bv8, stack: seq<nat>, style: Style): seq<bv8> {
    if c == LF then CloseTags(|stack|) + [LF] + Reopen(stack, style.attr) else Escaped(c, style.esc)
  }

  /** `Expand` over a whole run of bytes. */
  function ExpandAll(bs: seq<bv8>, stack: seq<nat>, style: Style): seq<bv8>
    decreases |bs|
  {
    if bs == [] then [] else Expand(bs[0], stack, style) + ExpandAll(bs[1..], stack, style)
  }

  /**
   * When no carriage-return marker can be written (none configured, an empty
   * attribute, or no carriage return in the span), a span writes its bytes
   * with every carriage return dropped, every line feed turned into the
   * closing tags, the line feed and the reopening tags, and every other byte
   * escaped.
   */
  lemma {:induction false} RunTextWithoutMarker(st: TextState, bs: seq<bv8>, stack: seq<nat>, style: Style)
    requires CrMarker(style.attr, style.cr) == [] || (Count(bs, CR) == 0 && !st.lastCharWasCr)
    ensures RunText(st, bs, stack, style).html == st.html + ExpandAll(StripCr(bs), stack, style)
    decreases |bs|
  {
    if bs != [] {
      var st' := ByteStep(st, bs[0], stack, style);
      ByteWithoutMarker(st, bs[0], stack, style);
      RunTextWithoutMarker(st', bs[1..], stack, style);
      if bs[0] != CR {
        assert ExpandAll(StripCr(bs), stack, style)
            == Expand(bs[0], stack, style) + ExpandAll(StripCr(bs[1..]), stack, style);
      } else {
        assert StripCr(bs) == StripCr(bs[1..]);
      }
      AppendAssoc(st.html, Expand(bs[0], stack, style), ExpandAll(StripCr(bs[1..]), stack, style));
    }
  }

  /** One byte when no marker can be written: nothing for a carriage return, its expansion otherwise. */
  lemma ByteWithoutMarker(st: TextState, c: bv8, stack: seq<nat>, style: Style)
    requires CrMarker(style.attr, style.cr) == [] || (c != CR && !st.lastCharWasCr)
    ensures var st' := ByteStep(st, c, stack, style);
            && st'.html == (if c == CR then st.html else st.html + Expand(c, stack, style))
            && (c != CR ==> !st'.lastCharWasCr)
  {
    if c != CR {
      var html := if st.lastCharWasCr && c != LF then st.html + CrMarker(style.attr, style.cr) else st.html;
      assert st.html + [] == st.html;
      assert html == st.html;
      if c == LF {
        AppendAssoc(st.html, CloseTags(|stack|) + [LF], Reopen(stack, style.attr));
      }
    }
  }

  /** A carriage return right before a line feed writes nothing. */
  lemma CrBeforeLf(st: TextState, a: seq<bv8>, b: seq<bv8>, stack: seq<nat>, style: Style)
    ensures RunText(st, a + [CR, LF] + b, stack, style) == RunText(st, a + [LF] + b, stack, style)
  {
    var mid := RunText(st, a, stack, style);
    RunTextSplit(st, a, [CR, LF] + b, stack, style);
    RunTextSplit(st, a, [LF] + b, stack, style);
    assert a + [CR, LF] + b == a + ([CR, LF] + b);
    assert a + [LF] + b == a + ([LF] + b);
    assert ([CR, LF] + b)[1..] == [LF] + b;
    assert RunText(mid, [CR, LF] + b, stack, style)
        == RunText(ByteStep(mid, CR, stack, style), [LF] + b, stack, style);
    assert ByteStep(ByteStep(mid, CR, stack, style), LF, stack, style) == ByteStep(mid, LF, stack, style);
  }

  /**
   * A carriage return followed in the same span by a byte `c` other than a
   * line feed writes the marker right before `c`'s own output.
   */
  lemma LoneCr(st: TextState, a: seq<bv8>, c: bv8, stack: seq<nat>, style: Style)
    requires c != CR && c != LF
    ensures RunText(st, a + [CR, c], stack, style).html
         == RunText(st, a, stack, style).html + CrMarker(style.attr, style.cr) + Escaped(c, style.esc)
  {
    RunTextSplit(st, a, [CR, c], stack, style);
    var mid := RunText(st, a, stack, style);
    var afterCr := ByteStep(mid, CR, stack, style);
    assert [CR, c][1..] == [c] && [c][1..] == [];
    assert RunText(mid, [CR, c], stack, style) == RunText(afterCr, [c], stack, style);
    assert RunText(afterCr, [c], stack, style) == ByteStep(afterCr, c, stack, style);
  }

  /** A carriage return that ends a span writes nothing (the flag does not outlive the span). */
  lemma TrailingCr(st: TextState, a: seq<bv8>, stack: seq<nat>, style: Style)
    ensures RunText(st, a + [CR], stack, style).html == RunText(st, a, stack, style).html
    ensures RunText(st, a + [CR], stack, style).offsets == RunText(st, a, stack, style).offsets
  {
    RunTextSplit(st, a, [CR], stack, style);
    var mid := RunText(st, a, stack, style);
    assert [CR][1..] == [];
    assert RunText(mid, [CR], stack, style) == RunText(ByteStep(mid, CR, stack, style), [], stack, style);
  }

  /** `render`'s state between events: buffer, index and the stack of open highlights. */
  datatype RenderState = RenderState(html: seq<bv8>, offsets: seq<nat>, stack: seq<nat>)

  /** Where `render`'s loop stops: the state, and the failure it returned, if any. */
  datatype Rendered = Rendered(state: RenderState, failure: Option<Error>)

  /** `Vec::pop`, which does nothing to an empty stack. */
  function Pop(stack: seq<nat>): (r: seq<nat>)
    ensures stack == [] ==> r == []
    ensures stack != [] ==> r + [stack[|stack| - 1]] == stack
  {
    if stack == [] then [] else stack[..|stack| - 1]
  }

  /** What one event other than a failure does to `render`'s state. */
  function EventStep(st: RenderState, e: Event, source: seq<bv8>, style: Style): (r: RenderState)
    requires !e.Fail? && (e.Source? ==> e.start <= e.end <= |source|)
    ensures st.html <= r.html && st.offsets <= r.offsets
    ensures e.Start? ==> r.stack == st.stack + [e.highlight]
    ensures e.End? ==> r.stack == Pop(st.stack)
    ensures e.Source? ==> r.stack == st.stack
  {
    match e
    case Start(h) => RenderState(st.html + OpenTag(h, style.attr), st.offsets, st.stack + [h])
    case End => RenderState(st.html + CloseTag, st.offsets, Pop(st.stack))
    case Source(start, end) =>
      var t := RunText(TextState(st.html, st.offsets, false), LossyBytes(source[start..end]), st.stack, style);
      RenderState(t.html, t.offsets, st.stack)
  }

  /** `render`'s loop over the events. */
  function RunEvents(st: RenderState, events: seq<Event>, source: seq<bv8>, style: Style): (r: Rendered)
    requires SpansInRange(events, |source|)
    ensures st.html <= r.state.html && st.offsets <= r.state.offsets
    decreases |events|
  {
    if events == [] then Rendered(st, None)
    else if events[0].Fail? then Rendered(st, Some(events[0].error))
    else RunEvents(EventStep(st, events[0], source, style), events[1..], source, style)
  }

  /** One unfolding of `render`'s loop: a failure stops it, any other event is applied and the rest follows. */
  lemma RunEventsCons(st: RenderState, events: seq<Event>, source: seq<bv8>, style: Style)
    requires events != [] && SpansInRange(events, |source|)
    ensures events[0].Fail? ==> RunEvents(st, events, source, style) == Rendered(st, Some(events[0].error))
    ensures !events[0].Fail? ==>
              && (events[0].Source? ==> events[0].start <= events[0].end <= |source|)
              && SpansInRange(events[1..], |source|)
              && RunEvents(st, events, source, style)
                 == RunEvents(EventStep(st, events[0], source, style), events[1..], source, style)
  {
  }

  /**
   * A render fails exactly with the stream's first failure, whatever the
   * state: an end with no highlight open, or more ends than starts, is not a
   * failure.
   */
  lemma {:induction false} RunEventsFailure(st: RenderState, events: seq<Event>, source: seq<bv8>, style: Style)
    requires SpansInRange(events, |source|)
    ensures RunEvents(st, events, source, style).failure == FirstFailure(events)
    decreases |events|
  {
    if events != [] && !events[0].Fail? {
      RunEventsFailure(EventStep(st, events[0], source, style), events[1..], source, style);
    }
  }

  /** One event keeps the line index and only appends, to the buffer and to the index. */
  lemma EventStepKeepsIndex(st: RenderState, e: Event, source: seq<bv8>, style: Style)
    requires !e.Fail? && (e.Source? ==> e.start <= e.end <= |source|)
    requires LineIndex(st.html, st.offsets)
    ensures var st' := EventStep(st, e, source, style);
            && LineIndex(st'.html, st'.offsets)
            && st.html <= st'.html && st.offsets <= st'.offsets
  {
    match e
    case Start(h) =>
      AppendKeepsIndex(st.html, st.offsets, OpenTag(h, style.attr));
    case End =>
      AppendKeepsIndex(st.html, st.offsets, CloseTag);
    case Source(start, end) =>
      RunTextKeepsIndex(TextState(st.html, st.offsets, false), LossyBytes(source[start..end]), st.stack, style);
  }

  /** The events keep the line index and only append, to the buffer and to the index. */
  lemma {:induction false} RunEventsKeepsIndex(st: RenderState, events: seq<Event>, source: seq<bv8>, style: Style)
    requires SpansInRange(events, |source|)
    requires LineIndex(st.html, st.offsets)
    ensures var st' := RunEvents(st, events, source, style).state;
            && LineIndex(st'.html, st'.offsets)
            && st.html <= st'.html && st.offsets <= st'.offsets
    decreases |events|
  {
    if events != [] && !events[0].Fail? {
      var next := EventStep(st, events[0], source, style);
      EventStepKeepsIndex(st, events[0], source, style);
      RunEventsKeepsIndex(next, events[1..], source, style);
    }
  }

  /** An end with no highlight open is not a failure: it writes `</color>` and the render goes on. */
  lemma UnbalancedEnd(st: RenderState, rest: seq<Event>, source: seq<bv8>, style: Style)
    requires st.stack == [] && SpansInRange(rest, |source|)
    ensures SpansInRange([End] + rest, |source|)
    ensures RunEvents(st, [End] + rest, source, style)
         == RunEvents(RenderState(st.html + CloseTag, st.offsets, []), rest, source, style)
  {
    assert ([End] + rest)[1..] == rest;
  }

  /**
   * A highlight whose attribute is empty opens with no tag, yet its end
   * still writes `</color>`: closes can outnumber opens in the buffer.
   */
  lemma SuppressedOpenStillCloses(st: RenderState, h: nat, source: seq<bv8>, style: Style)
    requires style.attr(h) == []
    ensures SpansInRange([Start(h), End], |source|)
    ensures RunEvents(st, [Start(h), End], source, style)
         == Rendered(RenderState(st.html + CloseTag, st.offsets, st.stack), None)
  {
    var events := [Start(h), End];
    assert events[1..] == [End] && events[1..][1..] == [];
    assert SpansInRange(events[1..][1..], |source|);
    var mid := EventStep(st, Start(h), source, style);
    assert st.html + [] == st.html;
    assert mid == RenderState(st.html, st.offsets, st.stack + [h]);
    assert Pop(mid.stack) == st.stack;
    var last := EventStep(mid, End, source, style);
    assert last == RenderState(st.html + CloseTag, st.offsets, st.stack);
    assert RunEvents(st, events, source, style) == RunEvents(mid, [End], source, style);
    assert RunEvents(mid, [End], source, style) == RunEvents(last, [], source, style);
  }

  /** The buffer and the index after `render`'s fix-up. */
  datatype Output = Output(html: seq<bv8>, offsets: seq<nat>)

  /** The buffer made to end in a line feed: one is appended unless it already does. */
  function EndWithLf(html: seq<bv8>): (h: seq<bv8>)
    ensures h != [] && h[|h| - 1] == LF
    ensures h == html || h == html + [LF]
    ensures html != [] && html[|html| - 1] == LF ==> h == html
  {
    if html == [] || html[|html| - 1] != LF then html + [LF] else html
  }

  /** The index with a last entry equal to the buffer length dropped; otherwise as it was. */
  function DropEmptyLast(h: seq<bv8>, offsets: seq<nat>): (o: seq<nat>)
    ensures o == offsets || (offsets != [] && o == offsets[..|offsets| - 1])
    ensures o != offsets <==> (offsets != [] && offsets[|offsets| - 1] == |h|)
  {
    if |offsets| > 0 && offsets[|offsets| - 1] == |h| then offsets[..|offsets| - 1] else offsets
  }

  /**
   * The end of a successful render: a line feed is appended unless the
   * buffer already ends in one, then a last index entry equal to the buffer
   * length is dropped.
   */
  function Finish(html: seq<bv8>, offsets: seq<nat>): (out: Output)
    ensures html <= out.html && |out.html| <= |html| + 1
    ensures out.offsets <= offsets && |offsets| <= |out.offsets| + 1
  {
    var h := EndWithLf(html);
    Output(h, DropEmptyLast(h, offsets))
  }

  /**
   * After the fix-up the buffer ends in a line feed, the last line starts
   * before the end of the buffer, and the index is still well kept.
   */
  lemma FinishEndsLines(html: seq<bv8>, offsets: seq<nat>)
    requires LineIndex(html, offsets)
    ensures var out := Finish(html, offsets);
            && LineIndex(out.html, out.offsets)
            && out.html != [] && out.html[|out.html| - 1] == LF
            && out.offsets[|out.offsets| - 1] < |out.html|
  {
    var h := EndWithLf(html);
    if h != html {
      AppendKeepsIndex(html, offsets, [LF]);
    }
    DropEmptyLastLine(h, offsets);
  }

  /** Dropping a last entry equal to the length of a buffer that ends in a line feed keeps the index. */
  lemma DropEmptyLastLine(h: seq<bv8>, offsets: seq<nat>)
    requires LineIndex(h, offsets) && h != [] && h[|h| - 1] == LF
    ensures var o := DropEmptyLast(h, offsets);
            LineIndex(h, o) && o[|o| - 1] < |h|
  {
    if offsets[|offsets| - 1] == |h| {
      assert |offsets| > 1;
      var o := offsets[..|offsets| - 1];
      assert o[|o| - 1] < offsets[|offsets| - 1];
    }
  }

  /**
   * A render from a well-kept index leaves one: as it stopped on a failure,
   * or after the fix-up of a success, which also ends the buffer in a line
   * feed and leaves no empty last line.
   */
  lemma RenderKeepsIndex(st: RenderState, events: seq<Event>, source: seq<bv8>, style: Style)
    requires SpansInRange(events, |source|)
    requires LineIndex(st.html, st.offsets)
    ensures var run := RunEvents(st, events, source, style);
            match run.failure
            case Some(_) => LineIndex(run.state.html, run.state.offsets)
            case None =>
              var out := Finish(run.state.html, run.state.offsets);
              && LineIndex(out.html, out.offsets)
              && out.html != [] && out.html[|out.html| - 1] == LF
              && out.offsets[|out.offsets| - 1] < |out.html|
  {
    var run := RunEvents(st, events, source, style);
    RunEventsKeepsIndex(st, events, source, style);
    StoppedOrFinished(run.state.html, run.state.offsets, run.failure);
  }

  /** `RenderKeepsIndex` for whatever state a render stopped in. */
  lemma StoppedOrFinished(html: seq<bv8>, offsets: seq<nat>, failure: Option<Error>)
    requires LineIndex(html, offsets)
    ensures match failure
            case Some(_) => LineIndex(html, offsets)
            case None =>
              var out := Finish(html, offsets);
              && LineIndex(out.html, out.offsets)
              && out.html != [] && out.html[|out.html| - 1] == LF
              && out.offsets[|out.offsets| - 1] < |out.html|
  {
    if failure.None? {
      FinishEndsLines(html, offsets);
    }
  }

  /** The index can delimit lines: entries are in order and within the buffer. */
  predicate Sliceable(html: seq<bv8>, offsets: seq<nat>) {
    && (forall i :: 0 <= i < |offsets| ==> offsets[i] <= |html|)
    && (forall i :: 0 <= i < |offsets| - 1 ==> offsets[i] <= offsets[i + 1])
  }

  /** Where line `i` ends: at the next entry, or at the end of the buffer for the last line. */
  function LineEnd(html: seq<bv8>, offsets: seq<nat>, i: nat): nat
    requires i < |offsets|
  {
    if i + 1 == |offsets| then |html| else offsets[i + 1]
  }

  /** `lines()`: the slices of the buffer that the index delimits. */
  function LineSlices(html: seq<bv8>, offsets: seq<nat>): (r: seq<seq<bv8>>)
    requires Sliceable(html, offsets)
    ensures |r| == |offsets|
  {
    seq(|offsets|, i requires 0 <= i < |offsets| => html[offsets[i]..LineEnd(html, offsets, i)])
  }

  /** Joining the lines gives back the buffer from the first entry on. */
  lemma {:induction false} LinesConcat(html: seq<bv8>, offsets: seq<nat>)
    requires Sliceable(html, offsets) && offsets != []
    ensures Concat(LineSlices(html, offsets)) == html[offsets[0]..]
    decreases |offsets|
  {
    var lines := LineSlices(html, offsets);
    if |offsets| == 1 {
      assert lines[0] == html[offsets[0]..|html|] == html[offsets[0]..];
      assert lines == [html[offsets[0]..]];
      assert Concat(lines) == lines[0] + Concat([]);
    } else {
      var rest := offsets[1..];
      assert Sliceable(html, rest) by {
        assert forall i :: 0 <= i < |rest| ==> rest[i] == offsets[i + 1];
      }
      LinesConcat(html, rest);
      assert lines[1..] == LineSlices(html, rest);
      assert html[offsets[0]..] == html[offsets[0]..offsets[1]] + html[offsets[1]..];
    }
  }

  /** A well-kept index delimits lines, and joining them gives back the whole buffer. */
  lemma LinesRoundTrip(html: seq<bv8>, offsets: seq<nat>)
    requires LineIndex(html, offsets)
    ensures Sliceable(html, offsets)
    ensures Concat(LineSlices(html, offsets)) == html
  {
    LinesConcat(html, offsets);
  }

  /**
   * After the fix-up of a successful render every line is non-empty and
   * ends in a line feed.
   */
  lemma FinishedLines(html: seq<bv8>, offsets: seq<nat>)
    requires LineIndex(html, offsets)
    requires html != [] && html[|html| - 1] == LF && offsets[|offsets| - 1] < |html|
    ensures Sliceable(html, offsets)
    ensures forall line <- LineSlices(html, offsets) :: line != [] && line[|line| - 1] == LF
  {
    var lines := LineSlices(html, offsets);
    forall k | 0 <= k < |lines|
      ensures lines[k] != [] && lines[k][|lines[k]| - 1] == LF
    {
      var e := LineEnd(html, offsets, k);
      assert offsets[k] < e;
      assert lines[k][|lines[k]| - 1] == html[e - 1];
    }
  }
}
