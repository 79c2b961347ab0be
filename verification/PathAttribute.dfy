/**
 Path attributes of an UPDATE message: flags, lengths and values as bytes, and the
 checks with which they are read back.
 */
module PathAttributes {
  import opened AsSegments
  import opened Wire
  import opened Words
  import opened Wrappers

  const ORIGIN: U8 := 1
  const AS_PATH: U8 := 2
  const NEXT_HOP: U8 := 3
  const MULTI_EXIT_DISC: U8 := 4
  const LOCAL_PREF: U8 := 5
  const ATOMIC_AGGREGATE: U8 := 6
  const ORIGINATOR_ID: U8 := 9
  const CLUSTER_LIST: U8 := 10
  const TYPE_UNKNOWN: U8 := 19
  const ORIGIN_MAX := 3
  const WRAP := 0x1_0000

  /** The codes of aggregator, multiprotocol and AS4 attributes, which are not modelled. */
  const UNMODELLED: set<U8> := {7, 14, 15, 17, 18}

  datatype Attr =
    | Origin(value: U8)
    | ASPath(segments: seq<Segment>)
    | NextHop(address: seq<U8>)
    | MultiExitDisc(med: U32)
    | LocalPref(pref: U32)
    | AtomicAggregate
    | OriginatorId(id: seq<U8>)
    | ClusterList(ids: seq<U32>)
    | Other(flags: U8, code: U8, bytes: seq<U8>)

  // ---------- Flags ----------

  predicate Optional(flags: U8) {
    flags / 0x80 % 2 == 1
  }

  predicate Transitive(flags: U8) {
    flags / 0x40 % 2 == 1
  }

  predicate Partial(flags: U8) {
    flags / 0x20 % 2 == 1
  }

  predicate ExtendedLen(flags: U8) {
    flags / 0x10 % 2 == 1
  }

  /** The three leading flag bits that an attribute of a known type must have. */
  function KnownFlags(code: U8): Option<nat> {
    if code in {ORIGIN, AS_PATH, NEXT_HOP, LOCAL_PREF, ATOMIC_AGGREGATE} then Some(2)
    else if code in {MULTI_EXIT_DISC, ORIGINATOR_ID, CLUSTER_LIST, 14, 15} then Some(4)
    else if code in {7, 17, 18} then Some(6)
    else None
  }

  function KnownLength(code: U8): Option<nat> {
    if code == ORIGIN then Some(1)
    else if code in {NEXT_HOP, MULTI_EXIT_DISC, LOCAL_PREF} then Some(4)
    else if code == ATOMIC_AGGREGATE then Some(0)
    else if code == 18 then Some(8)
    else None
  }

  predicate BadFlags(flags: U8) {
    || (!Optional(flags) && !Transitive(flags))
    || (Partial(flags) && (!Optional(flags) || !Transitive(flags)))
  }

  function Flags(a: Attr): U8 {
    match a
    case Origin(_) => 0x40
    case ASPath(_) => 0x50
    case NextHop(_) => 0x40
    case MultiExitDisc(_) => 0x80
    case LocalPref(_) => 0x40
    case AtomicAggregate => 0x40
    case OriginatorId(_) => 0x80
    case ClusterList(_) => 0x80
    case Other(flags, _, _) => flags
  }

  function Code(a: Attr): U8 {
    match a
    case Origin(_) => ORIGIN
    case ASPath(_) => AS_PATH
    case NextHop(_) => NEXT_HOP
    case MultiExitDisc(_) => MULTI_EXIT_DISC
    case LocalPref(_) => LOCAL_PREF
    case AtomicAggregate => ATOMIC_AGGREGATE
    case OriginatorId(_) => ORIGINATOR_ID
    case ClusterList(_) => CLUSTER_LIST
    case Other(_, code, _) => code
  }

  predicate ValidAttr(a: Attr) {
    a.ASPath? ==> AllSegmentsValid(a.segments)
  }

  function Body(a: Attr): seq<U8>
    requires ValidAttr(a)
  {
    match a
    case Origin(value) => [value]
    case ASPath(segments) => EncodeSegments(segments)
    case NextHop(address) => address
    case MultiExitDisc(med) => Be32(med)
    case LocalPref(pref) => Be32(pref)
    case AtomicAggregate => []
    case OriginatorId(id) => id
    case ClusterList(ids) => EncodeNumbers(ids)
    case Other(_, _, bytes) => bytes
  }

  function HeaderLen(flags: U8): nat {
    if ExtendedLen(flags) then 4 else 3
  }

  /** The length goes into two bytes or, without the flag for that, into one, where it may be cut. */
  function EncodeBase(flags: U8, code: U8, length: U16): (bytes: seq<U8>)
    ensures |bytes| == HeaderLen(flags)
  {
    [flags, code] + (if ExtendedLen(flags) then Be16(length) else [length % 0x100])
  }

  function EncodeAttr(a: Attr): (bytes: seq<U8>)
    requires ValidAttr(a) && |Body(a)| < WRAP
    ensures |bytes| == HeaderLen(Flags(a)) + |Body(a)|
  {
    EncodeBase(Flags(a), Code(a), |Body(a)|) + Body(a)
  }

  // ---------- Decoding ----------

  datatype Base = Base(flags: U8, code: U8, length: U16, header: nat)

  /** An error that quotes the attribute's bytes; quoting fails if they are not all there. */
  function Rejected(pkt: seq<U8>, total: nat, subcode: nat): Error {
    if total > |pkt| then Fault else UpdateError(subcode)
  }

  /** The first check adds the lengths in sixteen bits. */
  function DecodeBase(pkt: seq<U8>): Result<Base> {
    if |pkt| < 3 || (ExtendedLen(pkt[0]) && |pkt| < 4) then Err(UpdateError(MALFORMED_ATTR_LIST))
    else
      var flags, code := pkt[0], pkt[1];
      var header := HeaderLen(flags);
      var length: U16 := if ExtendedLen(flags) then Uint16(pkt[2..]) else pkt[2];
      var total := length + header;
      if |pkt| < total % WRAP then Err(UpdateError(MALFORMED_ATTR_LIST))
      else if KnownFlags(code).Some? && KnownFlags(code).value != flags / 0x20 then
        Err(Rejected(pkt, total, ATTR_FLAGS_ERROR))
      else if BadFlags(flags) then Err(Rejected(pkt, total, ATTR_FLAGS_ERROR))
      else if KnownLength(code).Some? && KnownLength(code).value != length then
        Err(Rejected(pkt, total, ATTR_LEN_ERROR))
      else if !Optional(flags) && code >= TYPE_UNKNOWN then Err(Rejected(pkt, total, UNRECOGNIZED_WELL_KNOWN))
      else Ok(Base(flags, code, length, header))
  }

  function DecodeValue(pkt: seq<U8>, base: Base): Result<Attr> {
    var total := base.header + base.length;
    if base.code in UNMODELLED then Err(Unmodelled)
    else if base.code == AS_PATH then
      var r := DecodeSegments(pkt, base.header, total);
      if r.Ok? then Ok(ASPath(r.value)) else Err(r.error)
    else if total > |pkt| then Err(Fault)
    else
      var value := pkt[base.header..total];
      if base.code == ORIGIN then
        if |value| < 1 then Err(Fault)
        else if value[0] >= ORIGIN_MAX then Err(UpdateError(MALFORMED_ATTR_LIST))
        else Ok(Origin(value[0]))
      else if base.code == NEXT_HOP then Ok(NextHop(value))
      else if base.code == MULTI_EXIT_DISC then (if |value| < 4 then Err(Fault) else Ok(MultiExitDisc(Uint32(value))))
      else if base.code == LOCAL_PREF then (if |value| < 4 then Err(Fault) else Ok(LocalPref(Uint32(value))))
      else if base.code == ATOMIC_AGGREGATE then Ok(AtomicAggregate)
      else if base.code == ORIGINATOR_ID then Ok(OriginatorId(value))
      else if base.code == CLUSTER_LIST then Ok(ClusterList(DecodeNumbers(value, |value| / 4)))
      else Ok(Other(base.flags, base.code, value))
  }

  /** An attribute and the number of bytes it takes. */
  function DecodeAttr(pkt: seq<U8>): Result<(Attr, nat)> {
    var base := DecodeBase(pkt);
    if base.Err? then Err(base.error)
    else
      var a := DecodeValue(pkt, base.value);
      if a.Err? then Err(a.error) else Ok((a.value, base.value.length + base.value.header))
  }

  method ReadAttr(pkt: seq<U8>) returns (r: Result<(Attr, nat)>)
    ensures r == DecodeAttr(pkt)
  {
    hide KnownFlags, KnownLength, BadFlags, DecodeSegments;
    var base := DecodeBase(pkt);
    if base.Err? { return Err(base.error); }
    var header, total := base.value.header, base.value.header + base.value.length;
    if base.value.code == AS_PATH {
      var segments := ReadSegments(pkt, header, total);
      if segments.Err? { return Err(segments.error); }
      return Ok((ASPath(segments.value), total));
    }
    var a := DecodeValue(pkt, base.value);
    if a.Err? { return Err(a.error); }
    return Ok((a.value, total));
  }

  // ---------- What is on the wire ----------

  /** The flags, the type code and the length of each attribute, and its value. */
  lemma AttrOnWire(a: Attr)
    requires ValidAttr(a) && |Body(a)| < WRAP
    ensures var b := EncodeAttr(a);
            match a
            case Origin(value) => b == [0x40, 1, 1, value]
            case ASPath(segments) =>
              var n := |EncodeSegments(segments)|;
              b == [0x50, 2, n / 0x100, n % 0x100] + EncodeSegments(segments)
            case NextHop(address) => |address| == 4 ==> b == [0x40, 3, 4] + address
            case MultiExitDisc(med) => b == [0x80, 4, 4] + Be32(med)
            case LocalPref(pref) => b == [0x40, 5, 4] + Be32(pref)
            case AtomicAggregate => b == [0x40, 6, 0]
            case OriginatorId(id) => |id| == 4 ==> b == [0x80, 9, 4] + id
            case ClusterList(ids) => |ids| <= 63 ==> b == [0x80, 10, 4 * |ids|] + EncodeNumbers(ids)
            case Other(flags, code, bytes) =>
              && (flags / 0x10 % 2 == 1 ==> b == [flags, code, |bytes| / 0x100, |bytes| % 0x100] + bytes)
              && (flags / 0x10 % 2 == 0 && |bytes| <= 255 ==> b == [flags, code, |bytes|] + bytes)
  {
    hide EncodeSegments, EncodeNumbers, Be32;
    if a.MultiExitDisc? { NumbersOnWire(0, a.med); }
    if a.LocalPref? { NumbersOnWire(0, a.pref); }
  }

  /** Which attributes the decoder refuses, though they are all there, and with which sub-code. */
  lemma AttrRefused(pkt: seq<U8>)
    requires |pkt| >= 3 && pkt[0] / 0x10 % 2 == 0 && |pkt| >= pkt[2] as int + 3
    ensures var (flags, code, length, r) := (pkt[0], pkt[1], pkt[2], DecodeAttr(pkt));
            if (code in {1, 2, 3, 5, 6} && flags / 0x20 != 2) || (code in {4, 9, 10, 14, 15} && flags / 0x20 != 4)
              || (code in {7, 17, 18} && flags / 0x20 != 6)
              || flags / 0x40 == 0 || (flags / 0x20 % 2 == 1 && flags / 0x40 != 3)
            then r == Err(UpdateError(4))
            else if (code == 1 && length != 1) || (code in {3, 4, 5} && length != 4) || (code == 6 && length != 0)
              || (code == 18 && length != 8)
            then r == Err(UpdateError(5))
            else if code >= 19 && flags < 0x80 then r == Err(UpdateError(2))
            else if code == 1 && pkt[3] >= 3 then r == Err(UpdateError(1))
            else if code in {7, 14, 15, 17, 18} then r == Err(Unmodelled)
            else code != 2 ==> r.Ok? && r.value.1 == length as int + 3
  {
    hide DecodeNumbers, Uint32, DecodeSegments, DecodeValue;
    var base := DecodeBase(pkt);
    if base.Ok? { ValueAccepted(pkt, base.value); }
  }

  lemma ValueAccepted(pkt: seq<U8>, base: Base)
    requires base.header + base.length <= |pkt| && (base.code == ORIGIN ==> base.length == 1)
    requires base.code in {MULTI_EXIT_DISC, LOCAL_PREF} ==> base.length == 4
    ensures var r := DecodeValue(pkt, base);
            if base.code in {7, 14, 15, 17, 18} then r == Err(Unmodelled)
            else if base.code == 1 && pkt[base.header] >= 3 then r == Err(UpdateError(1))
            else base.code != 2 ==> r.Ok?
  {
    hide DecodeNumbers, Uint32, DecodeSegments;
  }

  // ---------- Round trip ----------

  /** The attributes that come back as they were. */
  predicate Faithful(a: Attr) {
    match a
    case Origin(value) => value < ORIGIN_MAX
    case ASPath(segments) => AllMeasured(segments)
    case NextHop(address) => |address| == 4
    case MultiExitDisc(_) => true
    case LocalPref(_) => true
    case AtomicAggregate => true
    case OriginatorId(id) => |id| <= 255
    case ClusterList(ids) => |ids| <= 63
    case Other(flags, code, bytes) =>
      && KnownFlags(code).None? && !BadFlags(flags) && (code >= TYPE_UNKNOWN ==> Optional(flags))
      && (ExtendedLen(flags) || |bytes| <= 255)
  }

  lemma BaseRoundTrip(flags: U8, code: U8, length: U16, rest: seq<U8>)
    requires ExtendedLen(flags) || length <= 255
    requires |rest| >= length && length + HeaderLen(flags) < WRAP
    requires KnownFlags(code).Some? ==> KnownFlags(code).value == flags / 0x20
    requires !BadFlags(flags) && (KnownLength(code).Some? ==> KnownLength(code).value == length)
    requires code >= TYPE_UNKNOWN ==> Optional(flags)
    ensures DecodeBase(EncodeBase(flags, code, length) + rest) == Ok(Base(flags, code, length, HeaderLen(flags)))
  {
    var pkt := EncodeBase(flags, code, length) + rest;
    assert pkt[0] == flags && pkt[1] == code;
    if ExtendedLen(flags) {
      assert pkt[2..] == Be16(length) + rest;
      Uint16Be16(length, rest);
    } else {
      assert pkt[2] == length;
    }
  }

  lemma FaithfulHeader(a: Attr)
    requires Faithful(a) && ValidAttr(a)
    ensures var (flags, code) := (Flags(a), Code(a));
            && (ExtendedLen(flags) || |Body(a)| <= 255)
            && (KnownFlags(code).Some? ==> KnownFlags(code).value == flags / 0x20)
            && !BadFlags(flags) && (KnownLength(code).Some? ==> KnownLength(code).value == |Body(a)|)
            && (code >= TYPE_UNKNOWN ==> Optional(flags))
  {
  }

  lemma NumberRoundTrip(n: U32)
    ensures |Be32(n)| == 4 && Uint32(Be32(n)) == n
  {
    assert Be32(n) == Be32(n) + [];
    Uint32Be32(n, []);
  }

  lemma PathRoundTrip(segments: seq<Segment>, pkt: seq<U8>, header: nat)
    requires AllMeasured(segments) && AllSegmentsValid(segments)
    requires var n := |EncodeSegments(segments)|;
             n < WRAP && header + n <= |pkt| && pkt[header..header + n] == EncodeSegments(segments)
    ensures DecodeValue(pkt, Base(0x50, AS_PATH, |EncodeSegments(segments)|, header)) == Ok(ASPath(segments))
  {
    hide EncodeSegments, DecodeSegments;
    SegmentsRoundTrip(pkt, header, header + |EncodeSegments(segments)|, segments);
  }

  lemma ClusterRoundTrip(ids: seq<U32>)
    ensures DecodeNumbers(EncodeNumbers(ids), |ids|) == ids
  {
    assert EncodeNumbers(ids) == EncodeNumbers(ids) + [];
    NumbersRoundTrip(ids, []);
  }

  lemma ValueRoundTrip(a: Attr, pkt: seq<U8>, header: nat)
    requires Faithful(a) && ValidAttr(a) && |Body(a)| < WRAP
    requires header + |Body(a)| <= |pkt| && pkt[header..header + |Body(a)|] == Body(a)
    ensures DecodeValue(pkt, Base(Flags(a), Code(a), |Body(a)|, header)) == Ok(a)
  {
    hide Uint32, Be32, DecodeSegments, DecodeNumbers, EncodeNumbers, EncodeSegments;
    match a {
      case ASPath(segments) => PathRoundTrip(segments, pkt, header);
      case ClusterList(ids) => ClusterRoundTrip(ids);
      case MultiExitDisc(med) => NumberRoundTrip(med);
      case LocalPref(pref) => NumberRoundTrip(pref);
      case Other(_, _, _) =>
      case _ =>
    }
  }

  lemma AttrRoundTrip(a: Attr, tail: seq<U8>)
    requires Faithful(a) && ValidAttr(a) && |Body(a)| + 4 < WRAP
    ensures DecodeAttr(EncodeAttr(a) + tail) == Ok((a, |EncodeAttr(a)|))
  {
    var pkt, value, header := EncodeAttr(a) + tail, Body(a), HeaderLen(Flags(a));
    FaithfulHeader(a);
    hide KnownFlags, KnownLength, BadFlags, Body, Flags, Code, DecodeBase, DecodeValue, EncodeBase, Faithful;
    assert pkt == EncodeBase(Flags(a), Code(a), |value|) + (value + tail);
    BaseRoundTrip(Flags(a), Code(a), |value|, value + tail);
    assert pkt[header..header + |value|] == value;
    ValueRoundTrip(a, pkt, header);
  }

  // ---------- What does not come back ----------

  /** The AS paths for which the exact statement is made. */
  predicate Plain(a: Attr) {
    a.ASPath? ==> PlainSegments(a.segments)
  }

  /** What a header that passes the checks says. */
  lemma BaseRead(flags: U8, code: U8, length: U16, rest: seq<U8>)
    requires DecodeBase(EncodeBase(flags, code, length) + rest).Ok?
    ensures var read: U16 := if ExtendedLen(flags) then length else length % 0x100;
            && DecodeBase(EncodeBase(flags, code, length) + rest) == Ok(Base(flags, code, read, HeaderLen(flags)))
            && !BadFlags(flags) && (KnownLength(code).Some? ==> KnownLength(code).value == read)
            && (code >= TYPE_UNKNOWN ==> Optional(flags))
  {
    var pkt := EncodeBase(flags, code, length) + rest;
    hide KnownFlags, KnownLength, BadFlags;
    assert pkt[0] == flags && pkt[1] == code;
    if ExtendedLen(flags) {
      assert pkt[2..] == Be16(length) + rest;
      Uint16Be16(length, rest);
    } else {
      assert pkt[2] == length % 0x100;
    }
  }

  /** If the value read is the one written, the attribute is faithful. */
  lemma ValueRead(a: Attr, pkt: seq<U8>, base: Base)
    requires ValidAttr(a) && Plain(a) && base.flags == Flags(a) && base.code == Code(a)
    requires |Body(a)| < WRAP && base.length == if ExtendedLen(Flags(a)) then |Body(a)| else |Body(a)| % 0x100
    requires base.header + |Body(a)| <= |pkt| && pkt[base.header..base.header + |Body(a)|] == Body(a)
    requires !BadFlags(Flags(a)) && (KnownLength(Code(a)).Some? ==> KnownLength(Code(a)).value == base.length)
    requires Code(a) >= TYPE_UNKNOWN ==> Optional(Flags(a))
    requires DecodeValue(pkt, base) == Ok(a)
    ensures Faithful(a)
  {
    hide Uint32, Be32, DecodeNumbers, EncodeNumbers, EncodeSegments, DecodeSegments, BadFlags, AllMeasured;
    match a {
      case ASPath(segments) => SegmentsExact(pkt, base.header, base.header + base.length, segments);
      case Origin(value) => assert pkt[base.header..base.header + 1][0] == Body(a)[0];
      case ClusterList(ids) =>
      case Other(_, _, _) =>
      case _ =>
    }
  }

  /** An attribute comes back if and only if it is faithful. */
  lemma AttrRoundTripExact(a: Attr, tail: seq<U8>)
    requires ValidAttr(a) && |Body(a)| + 4 < WRAP && Plain(a)
    ensures var r := DecodeAttr(EncodeAttr(a) + tail);
            && (r.Ok? && r.value.0 == a <==> Faithful(a))
            && (Faithful(a) ==> r.value.1 == |EncodeAttr(a)|)
  {
    var pkt, value := EncodeAttr(a) + tail, Body(a);
    if Faithful(a) {
      AttrRoundTrip(a, tail);
    } else {
      hide KnownFlags, KnownLength, BadFlags, Body, Flags, Code, DecodeBase, DecodeValue, EncodeBase, Faithful, Plain;
      assert pkt == EncodeBase(Flags(a), Code(a), |value|) + (value + tail);
      var header := HeaderLen(Flags(a));
      assert pkt[header..header + |value|] == value;
      if DecodeAttr(pkt).Ok? && DecodeAttr(pkt).value.0 == a {
        BaseRead(Flags(a), Code(a), |value|, value + tail);
        ValueRead(a, pkt, DecodeBase(pkt).value);
      }
    }
  }
}
