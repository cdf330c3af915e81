/**
 * `LossyUtf8` (src/lib.rs): an iterator over a byte slice that yields its
 * valid UTF-8 runs as they are and one U+FFFD replacement character for each
 * invalid run.  The iterator holds the bytes still to be read and a flag
 * saying that a replacement is owed for the invalid run just skipped.
 */
module Lossy {
  import opened Wrappers
  import opened Bytes
  import opened Utf8

  /** U+FFFD REPLACEMENT CHARACTER, encoded in UTF-8. */
  const Replacement: seq<bv8> := [0xEF, 0xBF, 0xBD]

  /** What one call of `next` yields, and the iterator state it leaves. */
  datatype Step = Step(chunk: Option<seq<bv8>>, rest: seq<bv8>, inReplacement: bool)

  /** Decreases with every yielded chunk: a byte consumed counts twice, an owed replacement once. */
  function Measure(bytes: seq<bv8>, inReplacement: bool): nat {
    2 * |bytes| + (if inReplacement then 1 else 0)
  }

  /**
   * One call of `next` on the state (`bytes`, `inReplacement`).  Every chunk
   * it yields is non-empty well-formed UTF-8 and makes progress; when it
   * yields nothing it leaves the state as it was.
   */
  function NextStep(bytes: seq<bv8>, inReplacement: bool): (r: Step)
    ensures r.chunk.Some? ==>
              && r.chunk.value != [] && WellFormed(r.chunk.value)
              && Measure(r.rest, r.inReplacement) < Measure(bytes, inReplacement)
    ensures r.chunk.None? ==> r.rest == bytes && r.inReplacement == inReplacement
  {
    if bytes == [] then Step(None, bytes, inReplacement)
    else if inReplacement then
      assert WellFormed(Replacement[3..]);
      Step(Some(Replacement), bytes, false)
    else
      match FromUtf8(bytes)
      case Valid => Step(Some(bytes), [], inReplacement)
      case Invalid(validUpTo, Some(errorLen)) =>
        if validUpTo > 0 then Step(Some(bytes[..validUpTo]), bytes[validUpTo + errorLen..], true)
        else
          assert WellFormed(Replacement[3..]);
          Step(Some(Replacement), bytes[errorLen..], inReplacement)
      case Invalid(_, None) => Step(None, bytes, inReplacement)
  }

  /** Every chunk the iterator yields from state (`bytes`, `inReplacement`) until it returns `None`. */
  function Chunks(bytes: seq<bv8>, inReplacement: bool): (r: seq<seq<bv8>>)
    ensures forall i :: 0 <= i < |r| ==> r[i] != [] && WellFormed(r[i])
    decreases Measure(bytes, inReplacement)
  {
    var step := NextStep(bytes, inReplacement);
    if step.chunk.None? then []
    else
      var rest := Chunks(step.rest, step.inReplacement);
      var r := [step.chunk.value] + rest;
      assert r[0] == step.chunk.value && r[1..] == rest;
      r
  }

  /** The bytes of `LossyUtf8::new(src)`, flattened as `add_text` reads them. */
  function LossyBytes(src: seq<bv8>): (r: seq<bv8>)
    ensures WellFormed(r)
  {
    ChunksWellFormed(src, false);
    Concat(Chunks(src, false))
  }

  /** The decoder's output is always well-formed UTF-8, whatever its input. */
  lemma {:induction false} ChunksWellFormed(bytes: seq<bv8>, inReplacement: bool)
    ensures WellFormed(Concat(Chunks(bytes, inReplacement)))
    decreases Measure(bytes, inReplacement)
  {
    var step := NextStep(bytes, inReplacement);
    if step.chunk.Some? {
      ChunksWellFormed(step.rest, step.inReplacement);
      var cs := Chunks(bytes, inReplacement);
      assert cs[1..] == Chunks(step.rest, step.inReplacement);
      WellFormedAppend(step.chunk.value, Concat(cs[1..]));
    }
  }

  /** Fully valid input is yielded whole, in one chunk. */
  lemma ValidYieldedWhole(s: seq<bv8>)
    requires s != [] && WellFormed(s)
    ensures Chunks(s, false) == [s]
    ensures LossyBytes(s) == s
  {
    assert Chunks(s, false) == [s] + Chunks([], false);
    assert Concat([s]) == s + Concat([]);
  }

  /** A leading invalid run yields exactly one replacement, then decoding resumes after the run. */
  lemma LeadingInvalidRun(s: seq<bv8>, n: nat)
    requires FromUtf8(s) == Invalid(0, Some(n))
    ensures Chunks(s, false) == [Replacement] + Chunks(s[n..], false)
  {
    assert NextStep(s, false) == Step(Some(Replacement), s[n..], false);
  }

  /** A lone byte that can lead no character decodes to exactly one replacement. */
  lemma LoneInvalidByte(b: bv8)
    requires SeqLen(b) == 0
    ensures Chunks([b], false) == [Replacement]
  {
    var s := [b];
    var r := FromUtf8(s);
    assert !WellFormed(s);
    assert r.validUpTo == 0;
    assert s[0..1] == s;
    assert !IsCharPrefix(s[0..1]);
    assert r.errorLen == Some(1);
    assert Chunks(s, false) == [Replacement] + Chunks([], false);
  }

  /**
   * A valid prefix followed by an invalid run yields the prefix, then the
   * replacement on the next call, then the rest; but when the invalid run
   * ends the input the replacement is lost, because `next` checks for empty
   * input before it pays an owed replacement.
   */
  lemma PrefixThenInvalidRun(s: seq<bv8>, v: nat, n: nat)
    requires FromUtf8(s) == Invalid(v, Some(n)) && v > 0
    ensures Chunks(s, false) ==
              [s[..v]] + (if v + n == |s| then [] else [Replacement] + Chunks(s[v + n..], false))
  {
    var rest := s[v + n..];
    PrefixStep(s, v, n);
    OwedReplacement(rest);
    assert rest == [] <==> v + n == |s|;
  }

  /** The call that meets an invalid run after a valid prefix yields the prefix and owes a replacement. */
  lemma PrefixStep(s: seq<bv8>, v: nat, n: nat)
    requires FromUtf8(s) == Invalid(v, Some(n)) && v > 0
    ensures v + n <= |s| && Chunks(s, false) == [s[..v]] + Chunks(s[v + n..], true)
  {
    NextAfterPrefix(s, v, n);
    ChunksUnfold(s, false);
  }

  /** The single call of `next` that meets an invalid run after a valid prefix. */
  lemma NextAfterPrefix(s: seq<bv8>, v: nat, n: nat)
    requires FromUtf8(s) == Invalid(v, Some(n)) && v > 0
    ensures v + n <= |s| && NextStep(s, false) == Step(Some(s[..v]), s[v + n..], true)
  {
  }

  /** One unfolding of the iteration. */
  lemma ChunksUnfold(bytes: seq<bv8>, inReplacement: bool)
    ensures var step := NextStep(bytes, inReplacement);
            Chunks(bytes, inReplacement) ==
              if step.chunk.None? then [] else [step.chunk.value] + Chunks(step.rest, step.inReplacement)
  {
  }

  /** An owed replacement is paid on the next call only if bytes remain. */
  lemma OwedReplacement(rest: seq<bv8>)
    ensures Chunks(rest, true) == if rest == [] then [] else [Replacement] + Chunks(rest, false)
  {
    if rest != [] {
      assert NextStep(rest, true) == Step(Some(Replacement), rest, false);
    }
  }

  /**
   * Input that ends in a character cut short yields nothing more from the
   * call that meets it: whole characters in front of the cut, back to the
   * last invalid run, are dropped with it.
   */
  lemma {:induction false} TruncatedTailDropsPrefix(p: seq<bv8>, t: seq<bv8>)
    requires WellFormed(p) && IsCharPrefix(t) && |t| < SeqLen(t[0])
    ensures Chunks(p + t, false) == []
  {
    var s := p + t;
    assert s[..|p|] == p && s[|p|..] == t;
    assert s[0..|p|] == p;
    ValidateSkips(s, 0, |p|);
    assert s[|p|..|p| + |t|] == t;
    assert Validate(s, |p|) == Invalid(|p|, None);
    assert s[0..] == s;
  }

  /** The `LossyUtf8` iterator. */
  class LossyUtf8 {
    var bytes: seq<bv8>
    var inReplacement: bool

    /** `LossyUtf8::new`: all of `bytes` to read, no replacement owed. */
    constructor (bytes: seq<bv8>)
      ensures this.bytes == bytes && !inReplacement
    {
      this.bytes := bytes;
      this.inReplacement := false;
    }

    /** What the iterator has left to yield, flattened. */
    ghost function Remaining(): seq<bv8>
      reads this
    {
      Concat(Chunks(bytes, inReplacement))
    }

    /** `Iterator::next`. */
    method Next() returns (chunk: Option<seq<bv8>>)
      modifies this
      ensures Step(chunk, bytes, inReplacement) == NextStep(old(bytes), old(inReplacement))
      ensures chunk.None? ==> old(Remaining()) == []
      ensures chunk.Some? ==> old(Remaining()) == chunk.value + Remaining()
      ensures chunk.Some? ==> Measure(bytes, inReplacement) < Measure(old(bytes), old(inReplacement))
    {
      if |bytes| == 0 {
        return None;
      }
      if inReplacement {
        inReplacement := false;
        return Some(Replacement);
      }
      match FromUtf8(bytes)
      case Valid =>
        chunk := Some(bytes);
        bytes := [];
      case Invalid(errorStart, Some(errorLen)) =>
        if errorStart > 0 {
          chunk := Some(bytes[..errorStart]);
          bytes := bytes[errorStart + errorLen..];
          inReplacement := true;
        } else {
          bytes := bytes[errorLen..];
          chunk := Some(Replacement);
        }
      case Invalid(_, None) =>
        chunk := None;
    }
  }
}
