/**
 Changing an AS path in place: prepending an AS, and converting between AS numbers of
 four and of two bytes (section 4.2 of RFC 4893), with the length fields kept along.
 */
module AsPaths {
  import opened Words

  const AS_TRANS: U16 := 23456
  const SET: U8 := 1
  const SEQUENCE: U8 := 2
  const MAX_ASES := 255
  const WRAP := 0x1_0000

  /** The width of an AS number in bytes. */
  type Width = x: int | x == 2 || x == 4 witness 2

  /** A segment with its length fields: `count` is written out, `len` is its size in bytes. */
  datatype Segment = Segment(width: Width, kind: U8, count: U8, len: U16, ases: seq<U32>)

  function NewSegment(width: Width, kind: U8): Segment {
    Segment(width, kind, 0, 2, [])
  }

  predicate Consistent(s: Segment) {
    && s.count == |s.ases| && s.len == 2 + s.width * |s.ases|
    && (s.width == 2 ==> forall i :: 0 <= i < |s.ases| ==> s.ases[i] < WRAP)
  }

  predicate AllConsistent(value: seq<Segment>, width: Width) {
    forall i :: 0 <= i < |value| ==> Consistent(value[i]) && value[i].width == width
  }

  /** The ASes of a path in order, whatever the segments. */
  function Flat(value: seq<Segment>): seq<U32> {
    if value == [] then [] else value[0].ases + Flat(value[1..])
  }

  /** The bytes of all segments. */
  function Bytes(value: seq<Segment>): nat {
    if value == [] then 0 else value[0].len + Bytes(value[1..])
  }

  lemma {:induction false} BytesSnoc(value: seq<Segment>, s: Segment)
    ensures Bytes(value + [s]) == Bytes(value) + s.len
  {
    if value == [] {
      assert [s][1..] == [];
    } else {
      assert (value + [s])[1..] == value[1..] + [s];
      BytesSnoc(value[1..], s);
    }
  }

  /** A segment with an AS in front. */
  function Prefixed(s: Segment, number: U32): Segment
    requires s.count < MAX_ASES && s.len < WRAP - 4
  {
    s.(ases := [if s.width == 2 then number % WRAP else number] + s.ases, count := s.count + 1, len := s.len + s.width)
  }

  lemma WrapAdds(n: nat, k: nat)
    ensures (n % WRAP + k) % WRAP == (n + k) % WRAP
  {
  }

  lemma SegmentOpened(value: seq<Segment>, width: Width)
    requires AllConsistent(value, width)
    ensures var anew := [NewSegment(width, SEQUENCE)] + value;
            AllConsistent(anew, width) && Flat(anew) == Flat(value) && Bytes(anew) == Bytes(value) + 2
  {
    var anew := [NewSegment(width, SEQUENCE)] + value;
    assert anew[1..] == value;
    assert [] + Flat(value) == Flat(value);
  }

  lemma ASPrefixed(value: seq<Segment>, width: Width, number: U32)
    requires AllConsistent(value, width) && value != [] && value[0].count < MAX_ASES
    ensures value[0].len < WRAP - 4
    ensures var longer := value[0 := Prefixed(value[0], number)];
            && AllConsistent(longer, width) && Bytes(longer) == Bytes(value) + width
            && Flat(longer) == [if width == 2 then number % WRAP else number] + Flat(value)
  {
    assert Consistent(value[0]);
    var first := Prefixed(value[0], number);
    var longer := value[0 := first];
    assert longer[1..] == value[1..];
    assert first.ases + Flat(value[1..]) == [first.ases[0]] + (value[0].ases + Flat(value[1..]));
    PrefixedConsistent(value[0], number);
  }

  lemma PrefixedConsistent(s: Segment, number: U32)
    requires Consistent(s) && s.count < MAX_ASES && s.len < WRAP - 4
    ensures Consistent(Prefixed(s, number))
  {
  }

  /** What is left of the number that is put in front. */
  lemma NumberStored(number: U32, width: Width, anew: bool)
    ensures var stored := if anew && width == 2 && number >= WRAP then AS_TRANS else number;
            (if width == 2 then stored % WRAP else stored) ==
            if width == 4 || number < 65536 then number else if anew then 23456 else number % 65536
  {
  }

  class ASPath {
    const width: Width
    var value: seq<Segment>
    var length: U16

    /** Every segment's fields are right, and the attribute's length is the size of its segments in sixteen bits. */
    ghost predicate Valid()
      reads this
    {
      AllConsistent(value, width) && length == Bytes(value) % WRAP
    }

    constructor (width: Width)
      ensures Valid() && value == [] && length == 0 && this.width == width
    {
      this.width, value, length := width, [], 0;
    }

    method PrependASPathSegment(s: Segment)
      modifies this
      ensures value == [s] + old(value) && length == (old(length) + s.len) % WRAP
    {
      value := [s] + value;
      length := (length + s.len) % WRAP;
    }

    method AppendASPathSegment(s: Segment)
      requires length == Bytes(value) % WRAP
      modifies this
      ensures value == old(value) + [s] && length == Bytes(value) % WRAP
    {
      BytesSnoc(value, s);
      value := value + [s];
      length := (length + s.len) % WRAP;
    }

    /**
     Exactly one AS is added, in front of the path, and the lengths stay right.  An empty
     path, a set and a full segment get a new segment; a number that does not fit two bytes
     is replaced by AS_TRANS only then, and cut otherwise.
     */
    method PrependAS(number: U32)
      requires Valid()
      modifies this
      ensures Valid()
      ensures var anew := old(value) == [] || old(value)[0].kind == 1 || |old(value)[0].ases| == 255;
              && |value| == |old(value)| + (if anew then 1 else 0)
              && value != [] && value[0].kind == (if anew then 2 else old(value)[0].kind)
              && Bytes(value) == Bytes(old(value)) + width + (if anew then 2 else 0)
              && Flat(value) ==
                 [if width == 4 || number < 65536 then number else if anew then 23456 else number % 65536]
                 + Flat(old(value))
    {
      assert value != [] ==> value[0].count == |value[0].ases| by { if value != [] { assert Consistent(value[0]); } }
      hide Flat, Bytes, AllConsistent, Consistent;
      var stored: U32 := number;
      ghost var anew := value == [] || value[0].kind == SET || value[0].count >= MAX_ASES;
      NumberStored(number, width, anew);
      if value == [] || value[0].kind == SET || value[0].count >= MAX_ASES {
        if width == 2 && stored >= WRAP {
          stored := AS_TRANS;
        }
        SegmentOpened(value, width);
        WrapAdds(Bytes(value), 2);
        PrependASPathSegment(NewSegment(width, SEQUENCE));
      }
      assert Valid() && value != [] && Flat(value) == Flat(old(value));
      WrapAdds(Bytes(value), width);
      ASPrefixed(value, width, stored);
      value := value[0 := Prefixed(value[0], stored)];
      length := (length + width) % WRAP;
    }
  }

  // ---------- Conversions ----------

  /** The numbers that do not fit two bytes are replaced; the size is computed in eight bits. */
  function Narrowed(s: Segment): Segment {
    Segment(2, s.kind, s.count, 2 + (s.count * 2) % 0x100,
            seq(|s.ases|, i requires 0 <= i < |s.ases| => if s.ases[i] < WRAP then s.ases[i] else AS_TRANS))
  }

  function Widened(s: Segment): Segment {
    Segment(4, s.kind, s.count, 2 + s.count * 4, s.ases)
  }

  predicate Mappable(s: Segment) {
    forall i :: 0 <= i < |s.ases| ==> s.ases[i] < WRAP
  }

  /** A converted segment has the right size if and only if it has at most 127 ASes. */
  lemma NarrowedSize(s: Segment)
    requires Consistent(s) && s.width == 4
    ensures Consistent(Narrowed(s)) <==> |s.ases| <= 127
  {
  }

  /** Narrowing and widening give back a segment if and only if its numbers fit two bytes. */
  lemma NarrowWiden(s: Segment)
    requires Consistent(s) && s.width == 4
    ensures Consistent(Widened(Narrowed(s)))
    ensures Widened(Narrowed(s)) == s <==> Mappable(s)
  {
    if Mappable(s) { assert Narrowed(s).ases == s.ases; }
    if Widened(Narrowed(s)) == s {
      forall i | 0 <= i < |s.ases| ensures s.ases[i] < WRAP { assert s.ases[i] == Narrowed(s).ases[i]; }
    }
  }

  function AllNarrowed(value: seq<Segment>): seq<Segment> {
    seq(|value|, i requires 0 <= i < |value| => Narrowed(value[i]))
  }

  function AllWidened(value: seq<Segment>): seq<Segment> {
    seq(|value|, i requires 0 <= i < |value| => Widened(value[i]))
  }

  /** A path of two-byte numbers, and whether some number was replaced. */
  method Convert4ByteTo2ByteASPath(path: ASPath) returns (narrow: ASPath, replaced: bool)
    requires path.Valid() && path.width == 4
    ensures fresh(narrow) && narrow.width == 2
    ensures narrow.value == AllNarrowed(path.value) && narrow.length == Bytes(narrow.value) % WRAP
    ensures replaced <==> exists i :: 0 <= i < |path.value| && !Mappable(path.value[i])
    ensures |narrow.value| == |path.value|
    ensures forall i :: 0 <= i < |path.value| ==>
              && narrow.value[i].kind == path.value[i].kind && |narrow.value[i].ases| == |path.value[i].ases|
              && forall j :: 0 <= j < |path.value[i].ases| ==>
                   narrow.value[i].ases[j] == if path.value[i].ases[j] < 65536 then path.value[i].ases[j] else 23456
    ensures (forall i :: 0 <= i < |path.value| ==> |path.value[i].ases| <= 127) ==> narrow.Valid()
  {
    narrow := new ASPath(2);
    replaced := false;
    for i := 0 to |path.value|
      invariant fresh(narrow) && narrow.width == 2
      invariant narrow.value == AllNarrowed(path.value[..i]) && narrow.length == Bytes(narrow.value) % WRAP
      invariant replaced <==> exists j :: 0 <= j < i && !Mappable(path.value[j])
    {
      var s := path.value[i];
      if !Mappable(s) { replaced := true; }
      narrow.AppendASPathSegment(Narrowed(s));
    }
    assert path.value[..|path.value|] == path.value;
    if forall i :: 0 <= i < |path.value| ==> |path.value[i].ases| <= 127 {
      forall i | 0 <= i < |narrow.value| ensures Consistent(narrow.value[i]) { NarrowedSize(path.value[i]); }
    }
  }

  method ConvertAS2ToAS4(path: ASPath) returns (wide: ASPath)
    requires path.width == 2
    ensures fresh(wide) && wide.width == 4
    ensures wide.value == AllWidened(path.value) && wide.length == Bytes(wide.value) % WRAP
    ensures |wide.value| == |path.value|
    ensures forall i :: 0 <= i < |path.value| ==>
              wide.value[i].kind == path.value[i].kind && wide.value[i].ases == path.value[i].ases
  {
    wide := new ASPath(4);
    for i := 0 to |path.value|
      invariant fresh(wide) && wide.width == 4
      invariant wide.value == AllWidened(path.value[..i]) && wide.length == Bytes(wide.value) % WRAP
    {
      wide.AppendASPathSegment(Widened(path.value[i]));
    }
    assert path.value[..|path.value|] == path.value;
  }

  /** Both conversions in turn give back a path if and only if no number was replaced, and always a valid one. */
  method ConvertThereAndBack(path: ASPath) returns (back: ASPath, replaced: bool)
    requires path.Valid() && path.width == 4
    ensures back.Valid() && back.width == 4
    ensures back.value == path.value && back.length == path.length <==> !replaced
  {
    var narrow;
    narrow, replaced := Convert4ByteTo2ByteASPath(path);
    back := ConvertAS2ToAS4(narrow);
    forall i | 0 <= i < |path.value|
      ensures Consistent(back.value[i]) && (back.value[i] == path.value[i] <==> Mappable(path.value[i]))
    {
      NarrowWiden(path.value[i]);
    }
  }
}
