/**
 Segments of AS paths with four-byte AS numbers: their bytes, the length the decoder
 gives them, and the loops that read them back.
 */
module AsSegments {
  import opened Wire
  import opened Words
  import opened Wrappers

  // ---------- Lists of four-byte numbers ----------

  function EncodeNumbers(ns: seq<U32>): (bytes: seq<U8>)
    ensures |bytes| == 4 * |ns|
  {
    if ns == [] then [] else Be32(ns[0]) + EncodeNumbers(ns[1..])
  }

  function DecodeNumbers(b: seq<U8>, n: nat): (ns: seq<U32>)
    requires |b| >= 4 * n
    ensures |ns| == n
  {
    if n == 0 then [] else [Uint32(b)] + DecodeNumbers(b[4..], n - 1)
  }

  lemma {:induction false} NumbersRoundTrip(ns: seq<U32>, tail: seq<U8>)
    ensures DecodeNumbers(EncodeNumbers(ns) + tail, |ns|) == ns
  {
    hide Be32, Uint32;
    if ns != [] {
      var b := EncodeNumbers(ns) + tail;
      assert b == Be32(ns[0]) + (EncodeNumbers(ns[1..]) + tail);
      assert b[4..] == EncodeNumbers(ns[1..]) + tail;
      Uint32Be32(ns[0], EncodeNumbers(ns[1..]) + tail);
      NumbersRoundTrip(ns[1..], tail);
      assert ns == [ns[0]] + ns[1..];
    }
  }

  lemma {:induction false} DecodedNumber(b: seq<U8>, n: nat, i: nat)
    requires |b| >= 4 * n && i < n
    ensures |DecodeNumbers(b, n)| == n && DecodeNumbers(b, n)[i] == Uint32(b[4 * i..])
  {
    if n == 1 {
      assert DecodeNumbers(b[4..], 0) == [];
    } else if i == 0 {
      DecodedNumber(b[4..], n - 1, 0);
    } else {
      DecodedNumber(b[4..], n - 1, i - 1);
      assert b[4..][4 * (i - 1)..] == b[4 * i..];
    }
  }

  // ---------- AS path segments ----------

  datatype Segment = Segment(kind: U8, ases: seq<U32>)

  predicate ValidSegment(s: Segment) {
    |s.ases| <= 255
  }

  function EncodeSegment(s: Segment): seq<U8>
    requires ValidSegment(s)
  {
    [s.kind, |s.ases|] + EncodeNumbers(s.ases)
  }

  /** A number within a list of them, octet by octet. */
  lemma {:induction false} NumberOnWire(ns: seq<U32>, i: nat)
    requires i < |ns|
    ensures var b := EncodeNumbers(ns);
            |b| == 4 * |ns| && b[4 * i..4 * i + 4] == Be32(ns[i])
  {
    var b := EncodeNumbers(ns);
    if i > 0 {
      NumberOnWire(ns[1..], i - 1);
      var rest := EncodeNumbers(ns[1..]);
      assert b == Be32(ns[0]) + rest;
      assert b[4 * i..4 * i + 4] == rest[4 * (i - 1)..4 * (i - 1) + 4];
    }
  }

  /** A segment: its kind, the number of its ASes, and each of them in four octets. */
  lemma SegmentOnWire(s: Segment, i: nat)
    requires ValidSegment(s) && i < |s.ases|
    ensures var b := EncodeSegment(s);
            && |b| == 2 + 4 * |s.ases| && b[0] == s.kind && b[1] == |s.ases|
            && b[2 + 4 * i] as int * 0x100_0000 + b[3 + 4 * i] as int * 0x1_0000 + b[4 + 4 * i] as int * 0x100
                 + b[5 + 4 * i] == s.ases[i]
  {
    var b, numbers := EncodeSegment(s), EncodeNumbers(s.ases);
    NumberOnWire(s.ases, i);
    NumbersOnWire(0, s.ases[i]);
    hide Be32, EncodeNumbers;
    var n := numbers[4 * i..4 * i + 4];
    assert forall k :: 0 <= k < 4 ==> b[2 + 4 * i + k] == n[k];
    assert b[2 + 4 * i] == n[0] && b[3 + 4 * i] == n[1] && b[4 + 4 * i] == n[2] && b[5 + 4 * i] == n[3];
  }

  /** The length a decoded segment is taken to have; the product is computed in eight bits. */
  function DecodedLen(count: U8): nat {
    (count * 4 + 2) % 0x100
  }

  /** It is the length of the segment up to 63 ASes and too small from 64 on. */
  lemma DecodedLenExact(s: Segment)
    requires ValidSegment(s)
    ensures DecodedLen(|s.ases|) == |EncodeSegment(s)| <==> |s.ases| <= 63
    ensures |s.ases| >= 64 ==> 2 <= DecodedLen(|s.ases|) < |EncodeSegment(s)|
  {
  }

  function DecodeSegment(b: seq<U8>): (r: Option<Segment>)
    ensures r.Some? ==> |b| > 2 && |r.value.ases| == b[1]
  {
    if |b| <= 2 then None
    else
      var n: int := b[1];
      if |b| - 2 < 4 * n then None else Some(Segment(b[0], DecodeNumbers(b[2..], n)))
  }

  lemma SegmentRoundTrip(s: Segment, tail: seq<U8>)
    requires 1 <= |s.ases| <= 255
    ensures DecodeSegment(EncodeSegment(s) + tail) == Some(s)
  {
    var b := EncodeSegment(s) + tail;
    assert b[2..] == EncodeNumbers(s.ases) + tail;
    NumbersRoundTrip(s.ases, tail);
  }

  /** Reads the ASes of a segment into an array of their number. */
  method ReadSegment(b: seq<U8>) returns (r: Option<Segment>)
    ensures r == DecodeSegment(b)
  {
    if |b| <= 2 { return None; }
    var n: int := b[1];
    if |b| - 2 < 4 * n { return None; }
    var ases := new U32[n](_ => 0);
    for i := 0 to n
      invariant forall j :: 0 <= j < i ==> ases[j] == Uint32(b[2..][4 * j..])
    {
      ases[i] := Uint32(b[2 + 4 * i..]);
      assert b[2..][4 * i..] == b[2 + 4 * i..];
    }
    if n > 0 { DecodedNumber(b[2..], n, 0); }
    forall j | 0 <= j < n ensures ases[j] == DecodeNumbers(b[2..], n)[j] {
      DecodedNumber(b[2..], n, j);
    }
    assert ases[..] == DecodeNumbers(b[2..], n);
    return Some(Segment(b[0], ases[..]));
  }

  predicate AllSegmentsValid(segments: seq<Segment>) {
    forall i :: 0 <= i < |segments| ==> ValidSegment(segments[i])
  }

  /** No segment is empty and none has more ASes than eight bits can measure. */
  predicate AllMeasured(segments: seq<Segment>) {
    forall i :: 0 <= i < |segments| ==> 1 <= |segments[i].ases| <= 63
  }

  function EncodeSegments(segments: seq<Segment>): seq<U8>
    requires AllSegmentsValid(segments)
  {
    if segments == [] then [] else EncodeSegment(segments[0]) + EncodeSegments(segments[1..])
  }

  /** The segments from `ptr` to `end`; data too short for a segment end the list without an error. */
  function DecodeSegments(pkt: seq<U8>, ptr: nat, end: nat): Result<seq<Segment>>
    decreases end - ptr
  {
    if ptr > end then Err(UpdateError(ATTR_LEN_ERROR))
    else if ptr == end then Ok([])
    else if ptr > |pkt| then Err(Fault)
    else
      match DecodeSegment(pkt[ptr..])
      case None => Ok([])
      case Some(s) =>
        Prepended([s], DecodeSegments(pkt, ptr + DecodedLen(|s.ases|), end))
  }

  lemma DecodeSegmentsNext(pkt: seq<U8>, ptr: nat, end: nat, s: Segment)
    requires ptr < end && ptr <= |pkt| && DecodeSegment(pkt[ptr..]) == Some(s)
    ensures DecodeSegments(pkt, ptr, end) == Prepended([s], DecodeSegments(pkt, ptr + DecodedLen(|s.ases|), end))
  {
    hide DecodeSegment, DecodedLen, Prepended;
  }

  lemma {:induction false} SegmentsRoundTrip(pkt: seq<U8>, ptr: nat, end: nat, segments: seq<Segment>)
    requires AllMeasured(segments) && AllSegmentsValid(segments)
    requires ptr <= end <= |pkt| && pkt[ptr..end] == EncodeSegments(segments)
    ensures DecodeSegments(pkt, ptr, end) == Ok(segments)
    decreases |segments|
  {
    hide DecodeSegment, EncodeSegment, DecodedLen;
    if segments != [] {
      hide DecodeSegments;
      var s, bytes, rest := segments[0], EncodeSegment(segments[0]), EncodeSegments(segments[1..]);
      Parts(pkt, ptr, end, bytes, rest);
      SegmentRoundTrip(s, pkt[ptr + |bytes|..]);
      DecodedLenExact(s);
      EncodedSegmentGrows(s);
      DecodeSegmentsNext(pkt, ptr, end, s);
      SegmentsRoundTrip(pkt, ptr + |bytes|, end, segments[1..]);
      assert segments == [s] + segments[1..];
    }
  }

  lemma EncodedSegmentGrows(s: Segment)
    requires ValidSegment(s)
    ensures |EncodeSegment(s)| == 4 * |s.ases| + 2
  {
  }

  /** The loop over the segments of an AS path that starts at `ptr`. */
  method ReadSegments(pkt: seq<U8>, start: nat, end: nat) returns (r: Result<seq<Segment>>)
    requires start <= end
    ensures r == DecodeSegments(pkt, start, end)
  {
    hide DecodeSegment, DecodedLen, Prepended;
    var ptr, segments := start, [];
    PrependedNothing(DecodeSegments(pkt, start, end));
    while ptr < end
      invariant ptr <= end
      invariant DecodeSegments(pkt, start, end) == Prepended(segments, DecodeSegments(pkt, ptr, end))
    {
      PrependedEnd(segments, true);
      PrependedError(segments, Fault);
      if ptr > |pkt| { return Err(Fault); }
      var s := ReadSegment(pkt[ptr..]);
      if s.None? { return Ok(segments); }
      var next := ptr + DecodedLen(|s.value.ases|);
      DecodedLenGrows(|s.value.ases|);
      PrependedTwice(segments, [s.value], DecodeSegments(pkt, next, end));
      if next > end {
        PrependedEnd(segments + [s.value], false);
        return Err(UpdateError(ATTR_LEN_ERROR));
      }
      segments := segments + [s.value];
      ptr := next;
    }
    PrependedEnd(segments, true);
    return Ok(segments);
  }

  lemma DecodedLenGrows(count: U8)
    ensures DecodedLen(count) >= 2
  {
  }

  // ---------- What does not come back ----------

  /** Four-byte encodings that begin with two zero octets. */
  predicate TwoByteNumbers(ns: seq<U32>) {
    forall i :: 0 <= i < |ns| ==> ns[i] < 0x1_0000
  }

  lemma {:induction false} NumbersFrom(ns: seq<U32>, i: nat)
    requires i <= |ns|
    ensures EncodeNumbers(ns)[4 * i..] == EncodeNumbers(ns[i..])
  {
    hide Be32;
    if i > 0 {
      NumbersFrom(ns[1..], i - 1);
      assert ns[1..][i - 1..] == ns[i..];
      assert EncodeNumbers(ns)[4..] == EncodeNumbers(ns[1..]);
      assert EncodeNumbers(ns)[4..][4 * (i - 1)..] == EncodeNumbers(ns)[4 * i..];
    } else {
      assert ns[0..] == ns;
    }
  }

  lemma FirstOctets(ns: seq<U32>)
    requires ns != []
    ensures |EncodeNumbers(ns)| >= 4
    ensures EncodeNumbers(ns)[0] == ns[0] / 0x100_0000 && EncodeNumbers(ns)[1] == ns[0] / 0x1_0000 % 0x100
  {
    assert Be32(ns[0])[0] == ns[0] / 0x1_0000 / 0x100;
  }

  /** The count in eight bits is that of the ASes beyond the last multiple of 64. */
  lemma DecodedLenWraps(n: nat)
    requires 64 <= n <= 255
    ensures DecodedLen(n) == 2 + 4 * (n % 64)
  {
  }

  /**
   With 64 or more ASes the loop goes on at an AS number of the same segment: it takes
   the first octet of that number for a kind and the second for a count.
   */
  lemma Resumed(s: Segment, tail: seq<U8>)
    requires 64 <= |s.ases| <= 255
    ensures var at, next := |s.ases| % 64, DecodedLen(|s.ases|);
            var b := (EncodeSegment(s) + tail)[next..];
            && next < |EncodeSegment(s)| && |b| == 4 * (|s.ases| - at) + |tail| > 2
            && b[0] == s.ases[at] / 0x100_0000 && b[1] == s.ases[at] / 0x1_0000 % 0x100
  {
    var at, numbers := |s.ases| % 64, EncodeNumbers(s.ases);
    DecodedLenWraps(|s.ases|);
    NumbersFrom(s.ases, at);
    FirstOctets(s.ases[at..]);
    hide EncodeNumbers, DecodedLen;
    assert (EncodeSegment(s) + tail)[2 + 4 * at..] == numbers[4 * at..] + tail;
  }

  lemma ReadOrNot(b: seq<U8>)
    requires |b| > 2
    ensures DecodeSegment(b).None? <==> 4 * (b[1] as int) > |b| - 2
  {
  }

  /** After a first segment the result is that segment alone if and only if nothing else is read. */
  lemma FirstAlone(pkt: seq<U8>, end: nat, s: Segment, next: nat)
    requires 0 < next <= end <= |pkt| && DecodeSegment(pkt[0..]) == Some(s) && next == DecodedLen(|s.ases|)
    ensures DecodeSegments(pkt, 0, end) == Ok([s]) <==> next == end || DecodeSegment(pkt[next..]).None?
  {
    hide DecodeSegment, DecodedLen;
    DecodeSegmentsNext(pkt, 0, end, s);
    PrependedEnd([s], true);
    if next < end && DecodeSegment(pkt[next..]).Some? {
      var t := DecodeSegment(pkt[next..]).value;
      DecodeSegmentsNext(pkt, next, end, t);
      PrependedMore([s], t, DecodeSegments(pkt, next + DecodedLen(|t.ases|), end));
    }
  }

  /**
   A lone segment comes back if and only if it has at most 63 ASes, or the number at
   which the loop goes on asks for more octets than the packet has left, so that the
   error ends the list unnoticed.
   */
  lemma LoneSegmentExact(s: Segment, tail: seq<U8>)
    requires 1 <= |s.ases| <= 255
    ensures DecodeSegments(EncodeSegment(s) + tail, 0, |EncodeSegment(s)|) == Ok([s]) <==>
            |s.ases| <= 63 ||
            4 * (s.ases[|s.ases| % 64] / 0x1_0000 % 0x100) > 4 * (|s.ases| - |s.ases| % 64) + |tail| - 2
  {
    var pkt, end, next := EncodeSegment(s) + tail, |EncodeSegment(s)|, DecodedLen(|s.ases|);
    SegmentRoundTrip(s, tail);
    assert pkt[0..] == pkt;
    DecodedLenExact(s);
    DecodedLenGrows(|s.ases|);
    if |s.ases| >= 64 {
      Resumed(s, tail);
      ReadOrNot(pkt[next..]);
    }
    hide EncodeSegment, DecodedLen, DecodeSegment, DecodeSegments;
    FirstAlone(pkt, end, s, next);
  }

  /** Kinds and numbers whatever, but no empty segment and only two-byte numbers. */
  predicate PlainSegments(segments: seq<Segment>) {
    forall i :: 0 <= i < |segments| ==> 1 <= |segments[i].ases| <= 255 && TwoByteNumbers(segments[i].ases)
  }

  /** The loop takes the zero octets of a two-byte number for an empty segment. */
  lemma LongSegmentShows(s: Segment, tail: seq<U8>)
    requires 64 <= |s.ases| <= 255 && TwoByteNumbers(s.ases)
    ensures DecodedLen(|s.ases|) < |EncodeSegment(s)|
    ensures DecodeSegment((EncodeSegment(s) + tail)[DecodedLen(|s.ases|)..]) == Some(Segment(0, []))
  {
    Resumed(s, tail);
  }

  lemma PrependedPair(s: Segment, t: Segment, r: Result<seq<Segment>>, segments: seq<Segment>)
    requires Prepended([s], Prepended([t], r)) == Ok(segments)
    ensures |segments| >= 2 && segments[0] == s && segments[1] == t
  {
  }

  /** A path of two-byte numbers comes back if and only if no segment has more than 63 of them. */
  lemma {:induction false} SegmentsExact(pkt: seq<U8>, ptr: nat, end: nat, segments: seq<Segment>)
    requires PlainSegments(segments) && AllSegmentsValid(segments)
    requires ptr <= end <= |pkt| && pkt[ptr..end] == EncodeSegments(segments)
    ensures DecodeSegments(pkt, ptr, end) == Ok(segments) <==> AllMeasured(segments)
    decreases |segments|
  {
    hide DecodeSegment, EncodeSegment, DecodedLen, Prepended, TwoByteNumbers;
    if segments != [] {
      hide DecodeSegments;
      var s, bytes, rest := segments[0], EncodeSegment(segments[0]), EncodeSegments(segments[1..]);
      Parts(pkt, ptr, end, bytes, rest);
      var after := pkt[ptr + |bytes|..];
      SegmentRoundTrip(s, after);
      DecodedLenExact(s);
      EncodedSegmentGrows(s);
      DecodeSegmentsNext(pkt, ptr, end, s);
      var next := ptr + DecodedLen(|s.ases|);
      if |s.ases| <= 63 {
        SegmentsExact(pkt, ptr + |bytes|, end, segments[1..]);
        PrependedFirst(s, DecodeSegments(pkt, next, end), segments);
        assert AllMeasured(segments) <==> AllMeasured(segments[1..]);
      } else {
        LongSegmentShows(s, after);
        assert (bytes + after)[DecodedLen(|s.ases|)..] == pkt[next..];
        var empty := Segment(0, []);
        DecodeSegmentsNext(pkt, next, end, empty);
        if DecodeSegments(pkt, ptr, end) == Ok(segments) {
          PrependedPair(s, empty, DecodeSegments(pkt, next + DecodedLen(0), end), segments);
        }
      }
    }
  }

  /**
   A path whose bytes go on after some segments is still accepted, cut to these, if and
   only if what follows in the packet is too short for a segment: two octets or less, or
   fewer than its count of numbers.
   */
  lemma TruncationExact(pkt: seq<U8>, at: nat, end: nat, segments: seq<Segment>)
    requires AllMeasured(segments) && AllSegmentsValid(segments)
    requires |EncodeSegments(segments)| == at < end && at <= |pkt| && pkt[..at] == EncodeSegments(segments)
    ensures var rest := pkt[at..];
            DecodeSegments(pkt, 0, end) == Ok(segments) <==> |rest| <= 2 || 4 * (rest[1] as int) > |rest| - 2
  {
    ReadUpTo(pkt, 0, at, end, segments);
    var next := DecodeSegment(pkt[at..]);
    if next.None? {
      PrependedEnd(segments, true);
    } else {
      DecodeSegmentsNext(pkt, at, end, next.value);
      PrependedMore(segments, next.value, DecodeSegments(pkt, at + DecodedLen(|next.value.ases|), end));
    }
  }

  lemma PrependedMore(segments: seq<Segment>, s: Segment, r: Result<seq<Segment>>)
    ensures Prepended(segments, Prepended([s], r)) != Ok(segments)
  {
    if Prepended(segments, Prepended([s], r)).Ok? {
      assert |segments + ([s] + r.value)| > |segments|;
    }
  }

  lemma {:induction false} ReadUpTo(pkt: seq<U8>, ptr: nat, at: nat, end: nat, segments: seq<Segment>)
    requires AllMeasured(segments) && AllSegmentsValid(segments)
    requires ptr <= at < end && at <= |pkt| && pkt[ptr..at] == EncodeSegments(segments)
    ensures DecodeSegments(pkt, ptr, end) == Prepended(segments, DecodeSegments(pkt, at, end))
    decreases |segments|
  {
    hide DecodeSegment, EncodeSegment, DecodedLen, DecodeSegments, Prepended;
    if segments == [] {
      PrependedNothing(DecodeSegments(pkt, at, end));
    } else {
      var s, bytes, rest := segments[0], EncodeSegment(segments[0]), EncodeSegments(segments[1..]);
      Parts(pkt, ptr, at, bytes, rest);
      SegmentRoundTrip(s, pkt[ptr + |bytes|..]);
      DecodedLenExact(s);
      EncodedSegmentGrows(s);
      DecodeSegmentsNext(pkt, ptr, end, s);
      ReadUpTo(pkt, ptr + |bytes|, at, end, segments[1..]);
      PrependedTwice([s], segments[1..], DecodeSegments(pkt, at, end));
      assert segments == [s] + segments[1..];
    }
  }
}
