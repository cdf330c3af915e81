/**
 * UTF-8 well-formedness as section 4 of RFC 3629 defines it, and the
 * validation result the Rust standard library's `str::from_utf8` reports:
 * the length of the longest valid prefix (`valid_up_to`) and, after it, the
 * length of the maximal ill-formed subpart (`error_len`, in the sense of
 * section 3.9 of the Unicode Standard), or no length when the input ends in
 * the middle of a character.
 */
module Utf8 {
  import opened Wrappers

  /** UTF8-tail = %x80-BF */
  predicate IsTail(b: bv8) {
    0x80 <= b <= 0xBF
  }

  /** One encoded character: the rule UTF8-char of RFC 3629, spelt out. */
  predicate IsChar(c: seq<bv8>) {
    || (|c| == 1 && c[0] <= 0x7F)
    || (|c| == 2 && 0xC2 <= c[0] <= 0xDF && IsTail(c[1]))
    || (|c| == 3 && (
          || (c[0] == 0xE0 && 0xA0 <= c[1] <= 0xBF && IsTail(c[2]))
          || (0xE1 <= c[0] <= 0xEC && IsTail(c[1]) && IsTail(c[2]))
          || (c[0] == 0xED && 0x80 <= c[1] <= 0x9F && IsTail(c[2]))
          || (0xEE <= c[0] <= 0xEF && IsTail(c[1]) && IsTail(c[2]))))
    || (|c| == 4 && (
          || (c[0] == 0xF0 && 0x90 <= c[1] <= 0xBF && IsTail(c[2]) && IsTail(c[3]))
          || (0xF1 <= c[0] <= 0xF3 && IsTail(c[1]) && IsTail(c[2]) && IsTail(c[3]))
          || (c[0] == 0xF4 && 0x80 <= c[1] <= 0x8F && IsTail(c[2]) && IsTail(c[3]))))
  }

  /**
   * UTF8-octets = *( UTF8-char ): the byte string splits into characters.
   * Every character is as long as its lead byte announces (CharIsFullPrefix),
   * so the first character of a split can only be `s[..SeqLen(s[0])]`.
   */
  predicate WellFormed(s: seq<bv8>)
    decreases |s|
  {
    || s == []
    || (0 < SeqLen(s[0]) <= |s| && IsChar(s[..SeqLen(s[0])]) && WellFormed(s[SeqLen(s[0])..]))
  }

  /** The length of the character a lead byte announces; 0 if it can lead none. */
  function SeqLen(lead: bv8): (n: nat)
    ensures n <= 4
  {
    if lead <= 0x7F then 1
    else if 0xC2 <= lead <= 0xDF then 2
    else if 0xE0 <= lead <= 0xEF then 3
    else if 0xF0 <= lead <= 0xF4 then 4
    else 0
  }

  /** The range RFC 3629 allows for the byte after a lead byte. */
  predicate SecondOk(lead: bv8, b: bv8) {
    if lead == 0xE0 then 0xA0 <= b <= 0xBF
    else if lead == 0xED then 0x80 <= b <= 0x9F
    else if lead == 0xF0 then 0x90 <= b <= 0xBF
    else if lead == 0xF4 then 0x80 <= b <= 0x8F
    else IsTail(b)
  }

  /** `t` is a non-empty prefix (possibly all) of some UTF8-char. */
  predicate IsCharPrefix(t: seq<bv8>) {
    && |t| >= 1
    && |t| <= SeqLen(t[0])
    && (|t| >= 2 ==> SecondOk(t[0], t[1]))
    && (|t| >= 3 ==> IsTail(t[2]))
    && (|t| >= 4 ==> IsTail(t[3]))
  }

  /** A character is exactly a prefix of a character that has the announced length. */
  lemma CharIsFullPrefix(t: seq<bv8>)
    ensures IsChar(t) <==> IsCharPrefix(t) && |t| == SeqLen(t[0])
  {
  }

  /**
   * How many bytes from position `i` on agree with the character announced by
   * `s[i]`: 0 when `s[i]` cannot lead a character, otherwise the length of the
   * longest character prefix starting at `i`.
   */
  function MatchLen(s: seq<bv8>, i: nat): (m: nat)
    requires i < |s|
    ensures m <= SeqLen(s[i]) && i + m <= |s|
    ensures m == 0 <==> SeqLen(s[i]) == 0
    ensures m > 0 ==> IsCharPrefix(s[i..i + m])
    ensures 0 < m < SeqLen(s[i]) && i + m < |s| ==> !IsCharPrefix(s[i..i + m + 1])
    ensures m > 0 && m == SeqLen(s[i]) <==> i + SeqLen(s[i]) <= |s| && IsChar(s[i..i + SeqLen(s[i])])
  {
    var n := SeqLen(s[i]);
    CharIsFullPrefix(s[i..i + 1]);
    if n <= 1 then n
    else if i + 1 == |s| || !SecondOk(s[i], s[i + 1]) then 1
    else if n == 2 then 2
    else if i + 2 == |s| || !IsTail(s[i + 2]) then 2
    else if n == 3 then 3
    else if i + 3 == |s| || !IsTail(s[i + 3]) then 3
    else 4
  }

  /** The head of a well-formed non-empty string is a whole character. */
  lemma WellFormedHead(t: seq<bv8>)
    requires WellFormed(t) && t != []
    ensures 0 < SeqLen(t[0]) <= |t| && IsChar(t[..SeqLen(t[0])]) && WellFormed(t[SeqLen(t[0])..])
  {
    forall k | 1 <= k <= |t| && k <= 4 && IsChar(t[..k])
      ensures k == SeqLen(t[0])
    {
      CharIsFullPrefix(t[..k]);
    }
  }

  /** A string that starts with a character is well formed iff the rest is. */
  lemma WellFormedCons(t: seq<bv8>, n: nat)
    requires n <= |t| && IsChar(t[..n])
    ensures WellFormed(t) <==> WellFormed(t[n..])
  {
    CharIsFullPrefix(t[..n]);
    if WellFormed(t) {
      WellFormedHead(t);
    }
  }

  /**
   * What `str::from_utf8` says about the bytes at `v`, where validation
   * stopped: with no length, they are the start of a character cut off by the
   * end of the input; with length `n`, the `n` bytes are the maximal
   * ill-formed subpart: the longest character prefix there, followed by a
   * byte that cannot continue it, or a single byte that cannot lead any
   * character.
   */
  predicate ErrorReport(s: seq<bv8>, v: nat, errorLen: Option<nat>)
    requires v < |s|
  {
    match errorLen
    case None => IsCharPrefix(s[v..]) && !IsChar(s[v..])
    case Some(n) =>
      && 1 <= n <= 3 && v + n <= |s|
      && (IsCharPrefix(s[v..v + n]) || (n == 1 && SeqLen(s[v]) == 0))
      && (IsCharPrefix(s[v..v + n]) ==> v + n < |s| && !IsCharPrefix(s[v..v + n + 1]))
  }

  /** A whole character starts at position `v`. */
  predicate CharAt(s: seq<bv8>, v: nat)
    requires v < |s|
  {
    0 < SeqLen(s[v]) && v + SeqLen(s[v]) <= |s| && IsChar(s[v..v + SeqLen(s[v])])
  }

  /** What `str::from_utf8` reports. */
  datatype Utf8Check = Valid | Invalid(validUpTo: nat, errorLen: Option<nat>)

  /**
   * Validation of `s` from position `i` on, one character at a time.
   * An invalid result names the position of the first character that is not
   * whole, and the length of the maximal ill-formed subpart there (a single
   * byte when not even the first byte can lead a character), or none when the
   * character prefix runs into the end of the input.
   */
  function Validate(s: seq<bv8>, i: nat): (r: Utf8Check)
    requires i <= |s|
    ensures r.Valid? <==> WellFormed(s[i..])
    ensures r.Invalid? ==> i <= r.validUpTo < |s| && WellFormed(s[i..r.validUpTo])
    ensures r.Invalid? ==> r.validUpTo < |s| && ErrorReport(s, r.validUpTo, r.errorLen)
    ensures r.Invalid? ==> !CharAt(s, r.validUpTo)
    decreases |s| - i
  {
    if i == |s| then Valid
    else if MatchLen(s, i) > 0 && MatchLen(s, i) == SeqLen(s[i]) then
      var n := SeqLen(s[i]);
      var rest := Validate(s, i + n);
      StepOver(s, i, n, |s|);
      assert s[i..|s|] == s[i..] && s[i + n..|s|] == s[i + n..];
      if rest.Invalid? then
        StepOver(s, i, n, rest.validUpTo);
        rest
      else
        rest
    else
      NotWellFormedAt(s, i);
      assert s[i..i] == [];
      ErrorAt(s, i)
  }

  /** Passing one whole character keeps well-formedness of what follows up to `v`. */
  lemma StepOver(s: seq<bv8>, i: nat, n: nat, v: nat)
    requires i + n <= v <= |s| && IsChar(s[i..i + n])
    ensures WellFormed(s[i..v]) <==> WellFormed(s[i + n..v])
  {
    assert s[i..v][..n] == s[i..i + n];
    assert s[i..v][n..] == s[i + n..v];
    WellFormedCons(s[i..v], n);
  }

  /** The report at a position whose character is not whole. */
  function ErrorAt(s: seq<bv8>, i: nat): (r: Utf8Check)
    requires i < |s|
    requires !(MatchLen(s, i) > 0 && MatchLen(s, i) == SeqLen(s[i]))
    ensures r.Invalid? && r.validUpTo == i && ErrorReport(s, i, r.errorLen)
    ensures !CharAt(s, i)
  {
    var m := MatchLen(s, i);
    if i + m == |s| then
      assert s[i..i + m] == s[i..];
      CharIsFullPrefix(s[i..]);
      Invalid(i, None)
    else if m == 0 then
      Invalid(i, Some(1))
    else
      CharIsFullPrefix(s[i..i + m]);
      Invalid(i, Some(m))
  }

  /** A position whose character is not whole stops well-formedness there. */
  lemma NotWellFormedAt(s: seq<bv8>, i: nat)
    requires i < |s|
    requires !(MatchLen(s, i) > 0 && MatchLen(s, i) == SeqLen(s[i]))
    ensures !WellFormed(s[i..])
  {
    if WellFormed(s[i..]) {
      WellFormedHead(s[i..]);
    }
  }

  /**
   * `str::from_utf8`: `Valid` exactly for the well-formed strings; otherwise
   * the longest well-formed prefix and what follows it.
   */
  function FromUtf8(s: seq<bv8>): (r: Utf8Check)
    ensures r.Valid? <==> WellFormed(s)
    ensures r.Invalid? ==> r.validUpTo < |s| && WellFormed(s[..r.validUpTo])
    ensures r.Invalid? ==> r.validUpTo < |s| && ErrorReport(s, r.validUpTo, r.errorLen)
    ensures r.Invalid? ==> !CharAt(s, r.validUpTo)
  {
    assert s[0..] == s;
    var r := Validate(s, 0);
    assert r.Invalid? ==> s[0..r.validUpTo] == s[..r.validUpTo];
    r
  }

  /** Validation passes over whole characters without changing its verdict. */
  lemma {:induction false} ValidateSkips(s: seq<bv8>, i: nat, k: nat)
    requires i <= k <= |s| && WellFormed(s[i..k])
    ensures Validate(s, i) == Validate(s, k)
    decreases k - i
  {
    if i < k {
      var t := s[i..k];
      WellFormedHead(t);
      var n := SeqLen(s[i]);
      assert t[..n] == s[i..i + n];
      assert t[n..] == s[i + n..k];
      ValidateStep(s, i);
      ValidateSkips(s, i + n, k);
    }
  }

  /** Validation passes over a whole character. */
  lemma ValidateStep(s: seq<bv8>, i: nat)
    requires i < |s| && CharAt(s, i)
    ensures Validate(s, i) == Validate(s, i + SeqLen(s[i]))
  {
    assert MatchLen(s, i) == SeqLen(s[i]);
  }

  /** The concatenation of two well-formed strings is well formed. */
  lemma {:induction false} WellFormedAppend(a: seq<bv8>, b: seq<bv8>)
    requires WellFormed(a) && WellFormed(b)
    ensures WellFormed(a + b)
    decreases |a|
  {
    if a == [] {
      assert a + b == b;
    } else {
      WellFormedHead(a);
      var n := SeqLen(a[0]);
      WellFormedAppend(a[n..], b);
      PrependChar(a, b, n);
    }
  }

  /** A character in front of a well-formed string, when it is the head of `a`. */
  lemma PrependChar(a: seq<bv8>, b: seq<bv8>, n: nat)
    requires n <= |a| && IsChar(a[..n]) && WellFormed(a[n..] + b)
    ensures WellFormed(a + b)
  {
    assert (a + b)[..n] == a[..n];
    assert (a + b)[n..] == a[n..] + b;
    WellFormedCons(a + b, n);
  }

  /**
   * `valid_up_to` is the longest well-formed prefix: no longer prefix is
   * well formed.
   */
  lemma LongestValidPrefix(s: seq<bv8>, w: nat)
    requires FromUtf8(s).Invalid? && FromUtf8(s).validUpTo < w <= |s|
    ensures !WellFormed(s[..w])
  {
    if WellFormed(s[..w]) {
      LongerPrefixStartsChar(s, FromUtf8(s).validUpTo, w);
    }
  }

  /** When two prefixes are well formed, a whole character starts where the shorter one ends. */
  lemma LongerPrefixStartsChar(s: seq<bv8>, v: nat, w: nat)
    requires v < w <= |s| && WellFormed(s[..v]) && WellFormed(s[..w])
    ensures CharAt(s, v)
  {
    var t := s[..w];
    assert t[..v] == s[..v];
    ValidAfterPrefix(t, v);
    ValidStartsChar(t, v);
    assert t[v..v + SeqLen(t[v])] == s[v..v + SeqLen(s[v])];
  }

  /** Validation of a well-formed string from the end of a well-formed prefix passes. */
  lemma ValidAfterPrefix(t: seq<bv8>, v: nat)
    requires v <= |t| && WellFormed(t[..v]) && WellFormed(t)
    ensures Validate(t, v).Valid?
  {
    assert t[0..] == t && t[0..v] == t[..v];
    ValidateSkips(t, 0, v);
  }

  /** Where validation passes and bytes remain, a whole character starts. */
  lemma ValidStartsChar(t: seq<bv8>, v: nat)
    requires v < |t| && Validate(t, v).Valid?
    ensures CharAt(t, v)
  {
  }

  /**
   * `error_len` is the maximal ill-formed subpart: a character prefix that
   * is not a whole character, so that the next byte cannot continue it.
   */
  lemma ErrorLenMaximal(s: seq<bv8>)
    requires FromUtf8(s).Invalid? && FromUtf8(s).errorLen.Some?
    ensures var v, n := FromUtf8(s).validUpTo, FromUtf8(s).errorLen.value;
            && ((n == 1 && SeqLen(s[v]) == 0) || (IsCharPrefix(s[v..v + n]) && n < SeqLen(s[v])))
            && (SeqLen(s[v]) != 0 ==> v + n < |s| && !IsCharPrefix(s[v..v + n + 1]))
  {
    var v, n := FromUtf8(s).validUpTo, FromUtf8(s).errorLen.value;
    if IsCharPrefix(s[v..v + n]) {
      CharIsFullPrefix(s[v..v + n]);
    }
  }
}
