/**
 The bytes of an UPDATE message (section 4.3 of RFC 4271): prefixes with or without a
 path id, AS path segments of four-byte AS numbers, path attributes and the message.
 */
module Wire {
  import opened Words
  import opened Wrappers

  // sub-codes of the UPDATE message error (section 6.3 of RFC 4271)
  const MALFORMED_ATTR_LIST := 1
  const UNRECOGNIZED_WELL_KNOWN := 2
  const ATTR_FLAGS_ERROR := 4
  const ATTR_LEN_ERROR := 5
  const INVALID_NETWORK_FIELD := 10

  /** `Fault` stands for an index or slice out of range, `Unmodelled` for attributes that are left out. */
  datatype Error = UpdateError(subcode: nat) | Fault | Unmodelled

  datatype Result<+T> = Ok(value: T) | Err(error: Error)

  // ---------- Numbers ----------

  function Be16(n: U16): seq<U8> {
    [n / 0x100, n % 0x100]
  }

  function Be32(n: U32): seq<U8> {
    Be16(n / 0x1_0000) + Be16(n % 0x1_0000)
  }

  function Uint16(b: seq<U8>): U16
    requires |b| >= 2
  {
    var hi: int := b[0];
    hi * 0x100 + b[1]
  }

  function Uint32(b: seq<U8>): U32
    requires |b| >= 4
  {
    var hi: int := Uint16(b);
    hi * 0x1_0000 + Uint16(b[2..])
  }

  lemma Uint16Be16(n: U16, tail: seq<U8>)
    ensures Uint16(Be16(n) + tail) == n
  {
  }

  lemma Uint32Be32(n: U32, tail: seq<U8>)
    ensures Uint32(Be32(n) + tail) == n
  {
    var hi, lo := n / 0x1_0000, n % 0x1_0000;
    assert (Be32(n) + tail) == Be16(hi) + (Be16(lo) + tail);
    assert (Be32(n) + tail)[2..] == Be16(lo) + tail;
    Uint16Be16(hi, Be16(lo) + tail);
    Uint16Be16(lo, tail);
  }

  /** Numbers are written and read with the most significant octet first. */
  lemma NumbersOnWire(m: U16, n: U32)
    ensures var b := Be16(m); |b| == 2 && b[0] as int * 0x100 + b[1] == m
    ensures var b := Be32(n);
            |b| == 4 && b[0] as int * 0x100_0000 + b[1] as int * 0x1_0000 + b[2] as int * 0x100 + b[3] == n
  {
    var hi, lo := n / 0x1_0000, n % 0x1_0000;
    assert Be32(n) == [hi / 0x100, hi % 0x100, lo / 0x100, lo % 0x100];
  }

  lemma NumbersFromWire(b: seq<U8>)
    ensures |b| >= 2 ==> Uint16(b) == b[0] as int * 0x100 + b[1]
    ensures |b| >= 4 ==>
              Uint32(b) == b[0] as int * 0x100_0000 + b[1] as int * 0x1_0000 + b[2] as int * 0x100 + b[3]
  {
  }

  // ---------- Prefixes ----------

  /** An IPv4 prefix; `address` has its four octets, host bits included. */
  datatype IPPrefix = IPPrefix(length: U8, address: seq<U8>)

  /** With a path id this is the extended form of the ADD-PATH capability. */
  datatype Nlri = Nlri(pathId: Option<U32>, ip: IPPrefix)

  predicate ValidPrefix(p: IPPrefix) {
    |p.address| == 4 && p.length <= 32
  }

  function Octets(length: U8): nat {
    (length + 7) / 8
  }

  /** The number of host addresses within the last octet of a prefix. */
  function HostUnit(length: U8): nat
    ensures 1 <= HostUnit(length) <= 128
  {
    match length % 8
    case 1 => 128
    case 2 => 64
    case 3 => 32
    case 4 => 16
    case 5 => 8
    case 6 => 4
    case 7 => 2
    case _ => 1
  }

  /** No host bit is set. */
  predicate Canonical(p: IPPrefix) {
    && ValidPrefix(p)
    && (forall i :: Octets(p.length) <= i < 4 ==> p.address[i] == 0)
    && (p.length > 0 ==> p.address[Octets(p.length) - 1] % HostUnit(p.length) == 0)
  }

  function EncodePrefix(p: IPPrefix): seq<U8>
    requires ValidPrefix(p)
  {
    [p.length] + p.address[..Octets(p.length)]
  }

  function Zeros(n: nat): seq<U8> {
    seq(n, _ => 0)
  }

  function Masked(octets: seq<U8>, length: U8): seq<U8>
    requires |octets| == Octets(length)
  {
    if length == 0 then octets
    else
      var last := |octets| - 1;
      octets[last := octets[last] - octets[last] % HostUnit(length)]
  }

  function DecodePrefix(pkt: seq<U8>): Result<IPPrefix> {
    if |pkt| < 1 || pkt[0] > 32 || |pkt| < Octets(pkt[0]) + 1 then Err(UpdateError(INVALID_NETWORK_FIELD))
    else
      var n := Octets(pkt[0]);
      Ok(IPPrefix(pkt[0], Masked(pkt[1..n + 1], pkt[0]) + Zeros(4 - n)))
  }

  /** Decoding clears the host bits, so a prefix comes back as it was if and only if it has none. */
  lemma PrefixRoundTrip(p: IPPrefix, tail: seq<U8>)
    requires ValidPrefix(p)
    ensures var r := DecodePrefix(EncodePrefix(p) + tail);
            && r.Ok? && r.value.length == p.length && Canonical(r.value)
            && (r.value == p <==> Canonical(p))
  {
    var pkt, n := EncodePrefix(p) + tail, Octets(p.length);
    assert pkt[0] == p.length && pkt[1..n + 1] == p.address[..n];
    var q := DecodePrefix(pkt).value;
    assert forall i :: 0 <= i && i + 1 < n ==> q.address[i] == p.address[i];
    assert forall i :: n <= i < 4 ==> q.address[i] == 0;
    if p.length > 0 {
      WholeUnits(p.address[n - 1], p.length);
    }
    if Canonical(p) {
      assert forall i :: 0 <= i < 4 ==> q.address[i] == p.address[i];
    }
  }

  lemma Divided(m: nat, u: nat)
    requires u > 0
    ensures m == m / u * u + m % u
  {
  }

  lemma FarFromZero(d: int, u: int)
    requires u > 0
    ensures d == 0 || d * u >= u || d * u <= -u
  {
  }

  lemma MultipleDivides(q: nat, u: nat)
    requires u > 0
    ensures q * u % u == 0
  {
    var m := q * u;
    var d := q - m / u;
    Divided(m, u);
    assert m % u == d * u;
    FarFromZero(d, u);
  }

  lemma WholeUnits(b: U8, length: U8)
    ensures (b - b % HostUnit(length)) % HostUnit(length) == 0
  {
    var u := HostUnit(length);
    hide HostUnit;
    Divided(b, u);
    assert b - b % u == b / u * u;
    MultipleDivides(b / u, u);
  }

  /** A prefix takes as many octets as its length needs, no more, behind the length itself. */
  lemma PrefixOnWire(p: IPPrefix)
    requires ValidPrefix(p)
    ensures var bytes := EncodePrefix(p);
            var b := |bytes| - 1;
            && b >= 0 && 8 * b >= p.length && 8 * b < p.length + 8
            && bytes[0] == p.length && forall i :: 0 <= i < b ==> bytes[i + 1] == p.address[i]
  {
  }

  /** A prefix is read if and only if its length is at most 32 and all of its octets are there. */
  lemma PrefixAccepted(pkt: seq<U8>)
    ensures DecodePrefix(pkt).Ok? <==> |pkt| >= 1 && pkt[0] <= 32 && 8 * (|pkt| - 1) >= pkt[0]
    ensures DecodePrefix(pkt).Err? ==> DecodePrefix(pkt).error == UpdateError(10)
  {
  }

  /** An address as a number. */
  function AddressNumber(a: seq<U8>): nat
    requires |a| == 4
  {
    a[0] as int * 0x100_0000 + a[1] as int * 0x1_0000 + a[2] as int * 0x100 + a[3]
  }

  function PowerOfTwo(k: nat): (n: nat)
    ensures n > 0
  {
    if k == 0 then 1 else 2 * PowerOfTwo(k - 1)
  }

  lemma {:induction false} PowersMultiply(j: nat, k: nat)
    ensures PowerOfTwo(j + k) == PowerOfTwo(j) * PowerOfTwo(k)
  {
    if j > 0 {
      PowersMultiply(j - 1, k);
      assert 2 * (PowerOfTwo(j - 1) * PowerOfTwo(k)) == (2 * PowerOfTwo(j - 1)) * PowerOfTwo(k);
    }
  }

  /** The host addresses of a prefix: those within its last octet, times those of the octets behind it. */
  lemma HostAddresses(length: U8, b: nat)
    requires 0 < length <= 32 && 8 * b >= length && 8 * b < length + 8
    ensures PowerOfTwo(32 - length) == Weight(b) * HostUnit(length)
  {
    var unused := 8 * b - length;
    PowersMultiply(8 * (4 - b), unused);
    assert 8 * (4 - b) + unused == 32 - length;
    UnitIsPower(length, unused);
    WeightIsPower(b);
    hide PowerOfTwo, Weight, HostUnit;
  }

  lemma UnitIsPower(length: U8, unused: nat)
    requires unused < 8 && (length + unused) % 8 == 0
    ensures PowerOfTwo(unused) == HostUnit(length)
  {
    PowerValues();
    assert length % 8 == if unused == 0 then 0 else 8 - unused;
  }

  lemma WeightIsPower(b: nat)
    requires 1 <= b <= 4
    ensures PowerOfTwo(8 * (4 - b)) == Weight(b)
  {
    PowerValues();
  }

  lemma PowerValues()
    ensures PowerOfTwo(0) == 1 && PowerOfTwo(1) == 2 && PowerOfTwo(2) == 4 && PowerOfTwo(3) == 8
    ensures PowerOfTwo(4) == 16 && PowerOfTwo(5) == 32 && PowerOfTwo(6) == 64 && PowerOfTwo(7) == 128
    ensures PowerOfTwo(8) == 0x100 && PowerOfTwo(16) == 0x1_0000 && PowerOfTwo(24) == 0x100_0000
  {
  }

  lemma Remainder(n: nat, q: nat, d: nat, r: nat)
    requires n == q * d + r && r < d
    ensures n % d == r
  {
    Divided(n, d);
    var e := q - n / d;
    assert e * d == n % d - r;
    FarFromZero(e, d);
  }

  /** Cutting the host bits off the last octet cuts them off the number. */
  lemma HostBits(hi: nat, last: nat, w: nat, u: nat, c: nat)
    requires w > 0 && u > 0 && u * c == 0x100
    ensures (hi * (0x100 * w) + last * w) % (w * u) == last % u * w
  {
    var q, r := last / u, last % u;
    Divided(last, u);
    Regrouped(hi, u, c, w);
    Distributed(q, u, r, w);
    Joined(hi * c, q, w * u);
    Smaller(r, u, w);
    Remainder(hi * (0x100 * w) + last * w, hi * c + q, w * u, r * w);
  }

  lemma Regrouped(h: nat, u: nat, c: nat, w: nat)
    ensures h * ((u * c) * w) == h * c * (w * u)
  {
  }

  lemma Distributed(q: nat, u: nat, r: nat, w: nat)
    ensures (q * u + r) * w == q * (w * u) + r * w
  {
  }

  lemma Joined(a: nat, b: nat, d: nat)
    ensures (a + b) * d == a * d + b * d
  {
  }

  lemma Smaller(r: nat, u: nat, w: nat)
    requires r < u && w > 0
    ensures r * w < w * u
  {
  }

  /** The weight of octet `b` of an address, counted from 1. */
  function Weight(b: nat): nat {
    if b <= 1 then 0x100_0000 else if b == 2 then 0x1_0000 else if b == 3 then 0x100 else 1
  }

  /** An address whose octets behind `b` are zero, by its last octet and those in front of it. */
  lemma AddressParts(a: seq<U8>, b: nat) returns (hi: nat)
    requires |a| == 4 && 1 <= b <= 4 && forall i :: b <= i < 4 ==> a[i] == 0
    ensures AddressNumber(a) == hi * (0x100 * Weight(b)) + a[b - 1] as int * Weight(b)
  {
    if b == 1 {
      hi := 0;
    } else if b == 2 {
      hi := a[0];
    } else if b == 3 {
      hi := a[0] as int * 0x100 + a[1];
    } else {
      hi := a[0] as int * 0x1_0000 + a[1] as int * 0x100 + a[2];
    }
  }

  lemma OctetCut(a: seq<U8>, b: nat, cut: nat)
    requires |a| == 4 && 1 <= b <= 4 && cut <= a[b - 1]
    ensures AddressNumber(a[b - 1 := a[b - 1] - cut]) == AddressNumber(a) - cut * Weight(b)
  {
    if b == 1 {
    } else if b == 2 {
    } else if b == 3 {
    } else {
    }
  }

  /** The address read is, as a number, that of the octets received and zeros, less what the host bits make of it. */
  lemma DecodedAddress(pkt: seq<U8>, b: nat)
    requires DecodePrefix(pkt).Ok? && 8 * b >= pkt[0] && 8 * b < pkt[0] + 8
    ensures b <= 4 && b < |pkt|
    ensures var (r, n) := (DecodePrefix(pkt).value, AddressNumber(pkt[1..b + 1] + seq(4 - b, _ => 0)));
            && r.length == pkt[0] && |r.address| == 4
            && AddressNumber(r.address) == n - n % PowerOfTwo(32 - pkt[0])
  {
    hide HostUnit, PowerOfTwo, Masked, Weight;
    var length, r := pkt[0], DecodePrefix(pkt).value;
    assert b == Octets(length);
    var a := pkt[1..b + 1] + seq(4 - b, _ => 0);
    MaskedInPlace(pkt[1..b + 1], length, Zeros(4 - b));
    assert Zeros(4 - b) == seq(4 - b, _ => 0);
    if length > 0 {
      AddressCut(a, b, length);
    } else {
      assert AddressNumber(a) == 0;
    }
  }

  lemma MaskedInPlace(octets: seq<U8>, length: U8, zeros: seq<U8>)
    requires |octets| == Octets(length)
    ensures length == 0 ==> Masked(octets, length) + zeros == octets + zeros
    ensures length > 0 ==>
              var (a, last) := (octets + zeros, |octets| - 1);
              Masked(octets, length) + zeros == a[last := a[last] - a[last] % HostUnit(length)]
  {
    hide HostUnit;
  }

  lemma AddressCut(a: seq<U8>, b: nat, length: U8)
    requires 0 < length <= 32 && 8 * b >= length && 8 * b < length + 8
    requires |a| == 4 && forall i :: b <= i < 4 ==> a[i] == 0
    ensures var (last, n) := (a[b - 1], AddressNumber(a));
            AddressNumber(a[b - 1 := last - last % HostUnit(length)]) == n - n % PowerOfTwo(32 - length)
  {
    var w, u := Weight(b), HostUnit(length);
    var c := 0x100 / u;
    assert u * c == 0x100;
    HostAddresses(length, b);
    hide HostUnit, PowerOfTwo, AddressNumber;
    var hi := AddressParts(a, b);
    HostBits(hi, a[b - 1], w, u, c);
    OctetCut(a, b, a[b - 1] % u);
  }

  predicate ValidNlri(n: Nlri) {
    ValidPrefix(n.ip)
  }

  function Len(n: Nlri): (len: nat)
    ensures len > 0
  {
    Octets(n.ip.length) + 1 + (if n.pathId.Some? then 4 else 0)
  }

  function EncodeNlri(n: Nlri): (bytes: seq<U8>)
    requires ValidNlri(n)
    ensures |bytes| == Len(n)
  {
    (if n.pathId.Some? then Be32(n.pathId.value) else []) + EncodePrefix(n.ip)
  }

  function DecodeNlri(pkt: seq<U8>, addPath: bool): Result<Nlri> {
    if !addPath then
      var r := DecodePrefix(pkt);
      if r.Ok? then Ok(Nlri(None, r.value)) else Err(r.error)
    else if |pkt| < 5 then Err(UpdateError(INVALID_NETWORK_FIELD))
    else
      var r := DecodePrefix(pkt[4..]);
      if r.Ok? then Ok(Nlri(Some(Uint32(pkt)), r.value)) else Err(r.error)
  }

  lemma NlriRoundTrip(n: Nlri, tail: seq<U8>)
    requires Canonical(n.ip)
    ensures DecodeNlri(EncodeNlri(n) + tail, n.pathId.Some?) == Ok(n)
  {
    PrefixRoundTrip(n.ip, tail);
    if n.pathId.Some? {
      var pkt := EncodeNlri(n) + tail;
      assert pkt == Be32(n.pathId.value) + (EncodePrefix(n.ip) + tail);
      assert pkt[4..] == EncodePrefix(n.ip) + tail;
      Uint32Be32(n.pathId.value, EncodePrefix(n.ip) + tail);
    } else {
      assert EncodeNlri(n) == EncodePrefix(n.ip);
    }
  }

  /** What is decoded lies within the bytes given and has no host bits. */
  lemma DecodedNlriCanonical(pkt: seq<U8>, addPath: bool)
    ensures var r := DecodeNlri(pkt, addPath);
            r.Ok? ==> 1 <= Len(r.value) <= |pkt| && Canonical(r.value.ip) && r.value.pathId.Some? == addPath
  {
    var bytes := if addPath && |pkt| >= 5 then pkt[4..] else pkt;
    var r := DecodePrefix(bytes);
    if r.Ok? && r.value.length > 0 {
      WholeUnits(bytes[Octets(bytes[0])], bytes[0]);
    }
  }

  // ---------- Lists of prefixes ----------

  predicate AllValid(ns: seq<Nlri>) {
    forall i :: 0 <= i < |ns| ==> ValidNlri(ns[i])
  }

  /** The prefixes are free of host bits and all with a path id, or all without. */
  predicate AllCanonical(ns: seq<Nlri>, addPath: bool) {
    forall i :: 0 <= i < |ns| ==> Canonical(ns[i].ip) && ns[i].pathId.Some? == addPath
  }

  function EncodeNlris(ns: seq<Nlri>): seq<U8>
    requires AllValid(ns)
  {
    if ns == [] then [] else EncodeNlri(ns[0]) + EncodeNlris(ns[1..])
  }

  lemma {:induction false} EncodeNlrisSnoc(ns: seq<Nlri>, n: Nlri)
    requires AllValid(ns) && ValidNlri(n)
    ensures EncodeNlris(ns + [n]) == EncodeNlris(ns) + EncodeNlri(n)
  {
    if ns == [] {
      assert [n][1..] == [];
    } else {
      assert (ns + [n])[1..] == ns[1..] + [n];
      EncodeNlrisSnoc(ns[1..], n);
    }
  }

  function Prepended<T>(first: seq<T>, rest: Result<seq<T>>): Result<seq<T>> {
    if rest.Ok? then Ok(first + rest.value) else rest
  }

  /** The prefixes in the bytes from `ptr` up to `length`, which must end one of them. */
  function DecodeNlris(pkt: seq<U8>, ptr: nat, length: nat, addPath: bool): Result<seq<Nlri>>
    requires length <= |pkt|
    decreases length - ptr
  {
    if ptr > length then Err(UpdateError(ATTR_LEN_ERROR))
    else if ptr == length then Ok([])
    else
      var r := DecodeNlri(pkt[ptr..], addPath);
      if r.Err? then Err(r.error) else Prepended([r.value], DecodeNlris(pkt, ptr + Len(r.value), length, addPath))
  }

  /** A field of `length` bytes at the start of what is left of a packet. */
  function DecodeField(pkt: seq<U8>, length: nat, addPath: bool): Result<seq<Nlri>> {
    if length > |pkt| then Err(UpdateError(MALFORMED_ATTR_LIST)) else DecodeNlris(pkt, 0, length, addPath)
  }

  lemma PrependedNothing<T>(r: Result<seq<T>>)
    ensures Prepended([], r) == r
  {
    if r.Ok? { assert [] + r.value == r.value; }
  }

  lemma PrependedEnd<T>(first: seq<T>, done: bool)
    ensures Prepended(first, if done then Ok([]) else Err(UpdateError(ATTR_LEN_ERROR)))
            == if done then Ok(first) else Err(UpdateError(ATTR_LEN_ERROR))
  {
    assert first + [] == first;
  }

  lemma PrependedError<T>(first: seq<T>, e: Error)
    ensures Prepended(first, Err(e)) == Err(e)
  {
  }

  lemma PrependedFirst<T>(first: T, r: Result<seq<T>>, all: seq<T>)
    requires all != []
    ensures Prepended([first], r) == Ok(all) <==> first == all[0] && r == Ok(all[1..])
  {
    assert all == [all[0]] + all[1..];
    if r.Ok? { assert ([first] + r.value)[1..] == r.value; }
  }

  lemma PrependedTwice<T>(a: seq<T>, b: seq<T>, r: Result<seq<T>>)
    ensures Prepended(a, Prepended(b, r)) == Prepended(a + b, r)
  {
    if r.Ok? { assert a + (b + r.value) == a + b + r.value; }
  }

  lemma DecodeNlrisNext(pkt: seq<U8>, ptr: nat, length: nat, addPath: bool)
    requires ptr < length <= |pkt|
    ensures var r := DecodeNlri(pkt[ptr..], addPath);
            DecodeNlris(pkt, ptr, length, addPath) ==
            if r.Err? then Err(r.error) else Prepended([r.value], DecodeNlris(pkt, ptr + Len(r.value), length, addPath))
  {
    hide DecodeNlri, Len, Prepended;
  }

  lemma DecodeNlrisEnd(pkt: seq<U8>, ptr: nat, length: nat, addPath: bool)
    requires length <= ptr && length <= |pkt|
    ensures DecodeNlris(pkt, ptr, length, addPath) == if ptr == length then Ok([]) else Err(UpdateError(ATTR_LEN_ERROR))
  {
  }

  /** What stands at `ptr` and what follows it. */
  lemma Parts(pkt: seq<U8>, ptr: nat, length: nat, first: seq<U8>, rest: seq<U8>)
    requires ptr <= length <= |pkt| && pkt[ptr..length] == first + rest
    ensures ptr + |first| <= length
    ensures pkt[ptr..] == first + pkt[ptr + |first|..]
    ensures pkt[ptr + |first|..length] == rest
  {
    assert |first + rest| == length - ptr;
    forall i | 0 <= i < |first| ensures pkt[ptr + i] == first[i] {
      assert pkt[ptr + i] == pkt[ptr..length][i];
    }
    forall i | 0 <= i < |rest| ensures pkt[ptr + |first| + i] == rest[i] {
      assert pkt[ptr + |first| + i] == pkt[ptr..length][|first| + i];
    }
  }

  lemma {:induction false} NlrisRoundTrip(pkt: seq<U8>, ptr: nat, length: nat, ns: seq<Nlri>, addPath: bool)
    requires AllCanonical(ns, addPath) && AllValid(ns)
    requires ptr <= length <= |pkt| && pkt[ptr..length] == EncodeNlris(ns)
    ensures DecodeNlris(pkt, ptr, length, addPath) == Ok(ns)
    decreases |ns|
  {
    hide DecodeNlri, EncodeNlri, Canonical, Len;
    if ns == [] {
      DecodeNlrisEnd(pkt, ptr, length, addPath);
    } else {
      hide DecodeNlris;
      var bytes, rest := EncodeNlri(ns[0]), EncodeNlris(ns[1..]);
      Parts(pkt, ptr, length, bytes, rest);
      NlriRoundTrip(ns[0], pkt[ptr + |bytes|..]);
      DecodeNlrisNext(pkt, ptr, length, addPath);
      NlrisRoundTrip(pkt, ptr + |bytes|, length, ns[1..], addPath);
      assert ns == [ns[0]] + ns[1..];
    }
  }

  lemma {:induction false} DecodedNlrisCanonical(pkt: seq<U8>, ptr: nat, length: nat, addPath: bool)
    requires length <= |pkt|
    ensures var r := DecodeNlris(pkt, ptr, length, addPath); r.Ok? ==> AllCanonical(r.value, addPath)
    decreases length - ptr
  {
    hide DecodeNlri, Canonical, Len;
    if ptr < length {
      DecodedNlriCanonical(pkt[ptr..], addPath);
      DecodeNlrisNext(pkt, ptr, length, addPath);
      var r := DecodeNlri(pkt[ptr..], addPath);
      if r.Ok? { DecodedNlrisCanonical(pkt, ptr + Len(r.value), length, addPath); }
    }
  }

  /** The loop over the prefixes of one field. */
  method DecodeNLRI(pkt: seq<U8>, length: nat, addPath: bool) returns (r: Result<seq<Nlri>>)
    ensures r == DecodeField(pkt, length, addPath)
  {
    hide DecodeNlri, Len, Prepended, DecodeNlris;
    if length > |pkt| { return Err(UpdateError(MALFORMED_ATTR_LIST)); }
    var ptr := 0;
    var prefixes: seq<Nlri> := [];
    PrependedNothing(DecodeNlris(pkt, 0, length, addPath));
    while ptr < length
      invariant DecodeNlris(pkt, 0, length, addPath) == Prepended(prefixes, DecodeNlris(pkt, ptr, length, addPath))
      decreases length - ptr
    {
      var n := DecodeNlri(pkt[ptr..], addPath);
      DecodeNlrisNext(pkt, ptr, length, addPath);
      if n.Err? {
        PrependedError(prefixes, n.error);
        return Err(n.error);
      }
      PrependedTwice(prefixes, [n.value], DecodeNlris(pkt, ptr + Len(n.value), length, addPath));
      prefixes := prefixes + [n.value];
      ptr := ptr + Len(n.value);
    }
    DecodeNlrisEnd(pkt, ptr, length, addPath);
    PrependedEnd(prefixes, ptr == length);
    if ptr != length { return Err(UpdateError(ATTR_LEN_ERROR)); }
    return Ok(prefixes);
  }
}
