/**
 The body of an UPDATE message: the fields in order behind their lengths, written and
 read by loops over a moving offset.
 */
module UpdateMessages {
  import opened PathAttributes
  import opened Wire
  import opened Words
  import opened Wrappers

  const MSG_HEADER_LEN := 19
  const MSG_MAX_LEN := 4096

  datatype Update = Update(withdrawn: seq<Nlri>, attrs: seq<Attr>, nlri: seq<Nlri>)

  predicate AllAttrsValid(attrs: seq<Attr>) {
    forall i :: 0 <= i < |attrs| ==> ValidAttr(attrs[i]) && |Body(attrs[i])| + 4 < WRAP
  }

  predicate AllFaithful(attrs: seq<Attr>) {
    forall i :: 0 <= i < |attrs| ==> Faithful(attrs[i])
  }

  function EncodeAttrs(attrs: seq<Attr>): seq<U8>
    requires AllAttrsValid(attrs)
  {
    if attrs == [] then [] else EncodeAttr(attrs[0]) + EncodeAttrs(attrs[1..])
  }

  lemma {:induction false} EncodeAttrsSnoc(attrs: seq<Attr>, a: Attr)
    requires AllAttrsValid(attrs) && AllAttrsValid([a])
    ensures AllAttrsValid(attrs + [a])
    ensures EncodeAttrs(attrs + [a]) == EncodeAttrs(attrs) + EncodeAttr([a][0])
  {
    hide EncodeAttr, Body;
    if attrs == [] {
      assert [a][1..] == [];
    } else {
      assert (attrs + [a])[1..] == attrs[1..] + [a];
      EncodeAttrsSnoc(attrs[1..], a);
    }
  }

  predicate ValidUpdate(u: Update) {
    AllValid(u.withdrawn) && AllValid(u.nlri) && AllAttrsValid(u.attrs)
  }

  function EncodeUpdate(u: Update): seq<U8>
    requires ValidUpdate(u)
  {
    var (w, a) := (EncodeNlris(u.withdrawn), EncodeAttrs(u.attrs));
    Be16(|w| % WRAP) + w + Be16(|a| % WRAP) + a + EncodeNlris(u.nlri)
  }

  /** The attributes in the next `length` bytes, which must end one of them. */
  function DecodeAttrs(pkt: seq<U8>, ptr: nat, length: int): Result<seq<Attr>>
    decreases length
  {
    if length < 0 then Err(UpdateError(MALFORMED_ATTR_LIST))
    else if length == 0 then Ok([])
    else if ptr + 2 > |pkt| then Err(Fault)
    else
      var r := DecodeAttr(pkt[ptr..]);
      if r.Err? then Err(r.error)
      else
        DecodedAttrGrows(pkt[ptr..]);
        Prepended([r.value.0], DecodeAttrs(pkt, ptr + r.value.1, length - r.value.1))
  }

  lemma DecodedAttrGrows(pkt: seq<U8>)
    ensures DecodeAttr(pkt).Ok? ==> DecodeAttr(pkt).value.1 >= 3
  {
    hide DecodeValue, KnownFlags, KnownLength, BadFlags;
  }

  /** The receiver's checks; `pkt` is the body that the header's length announces. */
  function DecodeUpdate(pkt: seq<U8>, addPath: bool): Result<Update> {
    if |pkt| < 2 then Err(Fault)
    else
      var wdLen := Uint16(pkt);
      if wdLen + 4 > |pkt| then Err(UpdateError(MALFORMED_ATTR_LIST))
      else
        var withdrawn := DecodeField(pkt[2..], wdLen, addPath);
        if withdrawn.Err? then Err(UpdateError(MALFORMED_ATTR_LIST))
        else
          var paLen := Uint16(pkt[2 + wdLen..]);
          if paLen + wdLen + 4 > |pkt| then Err(UpdateError(MALFORMED_ATTR_LIST))
          else
            var attrs := DecodeAttrs(pkt, 4 + wdLen, paLen);
            if attrs.Err? then Err(attrs.error)
            else
              var ptr := 4 + wdLen + paLen;
              var nlri := DecodeField(pkt[ptr..], |pkt| - ptr, addPath);
              if nlri.Err? then Err(nlri.error) else Ok(Update(withdrawn.value, attrs.value, nlri.value))
  }

  // ---------- Round trip ----------

  lemma DecodeAttrsNext(pkt: seq<U8>, ptr: nat, length: nat, a: Attr, total: nat)
    requires length > 0 && ptr + 2 <= |pkt| && DecodeAttr(pkt[ptr..]) == Ok((a, total))
    ensures DecodeAttrs(pkt, ptr, length) == Prepended([a], DecodeAttrs(pkt, ptr + total, length - total))
  {
    hide DecodeAttr, Prepended;
  }

  lemma {:induction false} AttrsRoundTrip(pkt: seq<U8>, ptr: nat, end: nat, attrs: seq<Attr>)
    requires AllFaithful(attrs) && AllAttrsValid(attrs)
    requires ptr <= end <= |pkt| && pkt[ptr..end] == EncodeAttrs(attrs)
    ensures DecodeAttrs(pkt, ptr, end - ptr) == Ok(attrs)
    decreases |attrs|
  {
    hide DecodeAttr, EncodeAttr, Body, Faithful;
    if attrs != [] {
      hide DecodeAttrs;
      var a, bytes, rest := attrs[0], EncodeAttr(attrs[0]), EncodeAttrs(attrs[1..]);
      Parts(pkt, ptr, end, bytes, rest);
      AttrRoundTrip(a, pkt[ptr + |bytes|..]);
      assert |bytes| >= 3;
      DecodeAttrsNext(pkt, ptr, end - ptr, a, |bytes|);
      AttrsRoundTrip(pkt, ptr + |bytes|, end, attrs[1..]);
      assert attrs == [a] + attrs[1..];
    }
  }

  predicate FaithfulUpdate(u: Update, addPath: bool) {
    AllCanonical(u.withdrawn, addPath) && AllFaithful(u.attrs) && AllCanonical(u.nlri, addPath)
  }

  /** Where the fields of an encoded update are. */
  lemma Layout(w: seq<U8>, a: seq<U8>, n: seq<U8>)
    requires |w| + |a| < WRAP
    ensures var pkt := Be16(|w|) + w + Be16(|a|) + a + n;
            && |pkt| == 4 + |w| + |a| + |n|
            && Uint16(pkt) == |w| && pkt[2..][0..|w|] == w
            && Uint16(pkt[2 + |w|..]) == |a| && pkt[4 + |w|..4 + |w| + |a|] == a
            && pkt[4 + |w| + |a|..] == n
  {
    var pkt := Be16(|w|) + w + Be16(|a|) + a + n;
    assert pkt == Be16(|w|) + (w + Be16(|a|) + a + n);
    Uint16Be16(|w|, w + Be16(|a|) + a + n);
    assert pkt[2 + |w|..] == Be16(|a|) + (a + n);
    Uint16Be16(|a|, a + n);
  }

  lemma Assembled(pkt: seq<U8>, u: Update, wdLen: nat, paLen: nat, addPath: bool)
    requires |pkt| >= 4 + wdLen + paLen && Uint16(pkt) == wdLen && Uint16(pkt[2 + wdLen..]) == paLen
    requires DecodeField(pkt[2..], wdLen, addPath) == Ok(u.withdrawn)
    requires DecodeAttrs(pkt, 4 + wdLen, paLen) == Ok(u.attrs)
    requires DecodeField(pkt[4 + wdLen + paLen..], |pkt| - (4 + wdLen + paLen), addPath) == Ok(u.nlri)
    ensures DecodeUpdate(pkt, addPath) == Ok(u)
  {
    hide DecodeField, DecodeAttrs;
  }

  lemma FieldRoundTrip(pkt: seq<U8>, ns: seq<Nlri>, addPath: bool)
    requires AllCanonical(ns, addPath) && AllValid(ns)
    requires |EncodeNlris(ns)| <= |pkt| && pkt[0..|EncodeNlris(ns)|] == EncodeNlris(ns)
    ensures DecodeField(pkt, |EncodeNlris(ns)|, addPath) == Ok(ns)
  {
    NlrisRoundTrip(pkt, 0, |EncodeNlris(ns)|, ns, addPath);
  }

  /** An update of canonical prefixes and faithful attributes that fits a message comes back as it was. */
  lemma UpdateRoundTrip(u: Update, addPath: bool)
    requires FaithfulUpdate(u, addPath) && ValidUpdate(u)
    requires MSG_HEADER_LEN + |EncodeUpdate(u)| <= MSG_MAX_LEN
    ensures DecodeUpdate(EncodeUpdate(u), addPath) == Ok(u)
  {
    hide EncodeNlris, EncodeAttrs, DecodeField, DecodeAttrs, DecodeUpdate;
    hide AllCanonical, AllFaithful, AllValid, AllAttrsValid, Be16, Uint16;
    var w, a, n := EncodeNlris(u.withdrawn), EncodeAttrs(u.attrs), EncodeNlris(u.nlri);
    var pkt := EncodeUpdate(u);
    EncodedSize(u);
    Layout(w, a, n);
    FieldRoundTrip(pkt[2..], u.withdrawn, addPath);
    AttrsRoundTrip(pkt, 4 + |w|, 4 + |w| + |a|, u.attrs);
    assert pkt[4 + |w| + |a|..][0..|n|] == n;
    FieldRoundTrip(pkt[4 + |w| + |a|..], u.nlri, addPath);
    Assembled(pkt, u, |w|, |a|, addPath);
  }

  predicate AllPlain(attrs: seq<Attr>) {
    forall i :: 0 <= i < |attrs| ==> Plain(attrs[i])
  }

  /** The attributes come back if and only if each of them is faithful. */
  lemma {:induction false} AttrsExact(pkt: seq<U8>, ptr: nat, end: nat, attrs: seq<Attr>)
    requires AllPlain(attrs) && AllAttrsValid(attrs)
    requires ptr <= end <= |pkt| && pkt[ptr..end] == EncodeAttrs(attrs)
    ensures DecodeAttrs(pkt, ptr, end - ptr) == Ok(attrs) <==> AllFaithful(attrs)
    decreases |attrs|
  {
    hide DecodeAttr, EncodeAttr, Body, Faithful, Plain, Prepended;
    if attrs != [] {
      hide DecodeAttrs;
      var a, bytes, rest := attrs[0], EncodeAttr(attrs[0]), EncodeAttrs(attrs[1..]);
      Parts(pkt, ptr, end, bytes, rest);
      AttrRoundTripExact(a, pkt[ptr + |bytes|..]);
      assert |bytes| >= 3;
      var read := DecodeAttr(pkt[ptr..]);
      FirstAttr(pkt, ptr, end - ptr, attrs);
      if Faithful(a) {
        AttrsExact(pkt, ptr + |bytes|, end, attrs[1..]);
        assert AllFaithful(attrs) <==> AllFaithful(attrs[1..]);
      }
    }
  }

  lemma FirstAttr(pkt: seq<U8>, ptr: nat, length: nat, attrs: seq<Attr>)
    requires attrs != [] && length > 0 && ptr + 2 <= |pkt|
    ensures var read := DecodeAttr(pkt[ptr..]);
            DecodeAttrs(pkt, ptr, length) == Ok(attrs) <==>
            && read.Ok? && read.value.0 == attrs[0]
            && DecodeAttrs(pkt, ptr + read.value.1, length - read.value.1) == Ok(attrs[1..])
  {
    hide DecodeAttr, Prepended;
    var read := DecodeAttr(pkt[ptr..]);
    if read.Ok? {
      DecodeAttrsNext(pkt, ptr, length, read.value.0, read.value.1);
      PrependedFirst(read.value.0, DecodeAttrs(pkt, ptr + read.value.1, length - read.value.1), attrs);
    }
  }

  /** Where the attributes of a decoded update were read. */
  lemma AttrsRead(pkt: seq<U8>, wdLen: nat, paLen: nat, addPath: bool)
    requires DecodeUpdate(pkt, addPath).Ok?
    requires |pkt| >= 4 + wdLen && Uint16(pkt) == wdLen && Uint16(pkt[2 + wdLen..]) == paLen
    ensures DecodeAttrs(pkt, 4 + wdLen, paLen) == Ok(DecodeUpdate(pkt, addPath).value.attrs)
  {
    hide DecodeField, DecodeAttrs;
  }

  lemma AttrsComeBack(u: Update, addPath: bool)
    requires ValidUpdate(u) && AllPlain(u.attrs) && MSG_HEADER_LEN + |EncodeUpdate(u)| <= MSG_MAX_LEN
    requires DecodeUpdate(EncodeUpdate(u), addPath) == Ok(u)
    ensures AllFaithful(u.attrs)
  {
    hide EncodeNlris, EncodeAttrs, DecodeField, DecodeAttrs, DecodeUpdate;
    hide AllFaithful, AllValid, AllAttrsValid, AllPlain, Be16, Uint16;
    var w, a, n := EncodeNlris(u.withdrawn), EncodeAttrs(u.attrs), EncodeNlris(u.nlri);
    var pkt := EncodeUpdate(u);
    EncodedSize(u);
    Layout(w, a, n);
    AttrsRead(pkt, |w|, |a|, addPath);
    AttrsExact(pkt, 4 + |w|, 4 + |w| + |a|, u.attrs);
  }

  /**
   An update that fits a message comes back if and only if its prefixes have no host bits
   and the form that was negotiated, and all its attributes are faithful.
   */
  lemma UpdateRoundTripExact(u: Update, addPath: bool)
    requires ValidUpdate(u) && AllPlain(u.attrs) && MSG_HEADER_LEN + |EncodeUpdate(u)| <= MSG_MAX_LEN
    ensures DecodeUpdate(EncodeUpdate(u), addPath) == Ok(u) <==> FaithfulUpdate(u, addPath)
  {
    hide EncodeUpdate, DecodeUpdate, ValidUpdate, AllPlain, AllCanonical, AllFaithful;
    if FaithfulUpdate(u, addPath) { UpdateRoundTrip(u, addPath); }
    if DecodeUpdate(EncodeUpdate(u), addPath) == Ok(u) {
      AttrsComeBack(u, addPath);
      DecodedFieldsCanonical(EncodeUpdate(u), addPath);
    }
  }

  lemma DecodedFieldsCanonical(pkt: seq<U8>, addPath: bool)
    ensures var r := DecodeUpdate(pkt, addPath);
            r.Ok? ==> AllCanonical(r.value.withdrawn, addPath) && AllCanonical(r.value.nlri, addPath)
  {
    hide AllCanonical, DecodeNlris, DecodeAttrs;
    if DecodeUpdate(pkt, addPath).Ok? {
      var wdLen := Uint16(pkt);
      var ptr := 4 + wdLen + Uint16(pkt[2 + wdLen..]);
      DecodedNlrisCanonical(pkt[2..], 0, wdLen, addPath);
      DecodedNlrisCanonical(pkt[ptr..], 0, |pkt| - ptr, addPath);
    }
  }

  /** The length of the withdrawn prefixes in two octets, these, that of the attributes in two, these, and the rest. */
  lemma UpdateOnWire(u: Update)
    requires ValidUpdate(u) && |EncodeNlris(u.withdrawn)| < 0x1_0000 && |EncodeAttrs(u.attrs)| < 0x1_0000
    ensures var (w, a) := (|EncodeNlris(u.withdrawn)|, |EncodeAttrs(u.attrs)|);
            EncodeUpdate(u) == [w / 0x100, w % 0x100] + EncodeNlris(u.withdrawn)
                               + [a / 0x100, a % 0x100] + EncodeAttrs(u.attrs) + EncodeNlris(u.nlri)
  {
    var w, a := |EncodeNlris(u.withdrawn)|, |EncodeAttrs(u.attrs)|;
    assert Be16(w % WRAP) == [w / 0x100, w % 0x100] && Be16(a % WRAP) == [a / 0x100, a % 0x100];
    hide EncodeNlris, EncodeAttrs, AllValid, AllAttrsValid, Be16;
  }

  /** Lengths that point behind the message are refused, as is a message too short for them. */
  lemma UpdateRefused(pkt: seq<U8>, addPath: bool)
    ensures |pkt| < 2 ==> DecodeUpdate(pkt, addPath) == Err(Fault)
    ensures |pkt| >= 2 && pkt[0] as int * 0x100 + pkt[1] + 4 > |pkt| ==>
              DecodeUpdate(pkt, addPath) == Err(UpdateError(1))
    ensures |pkt| >= 2 && pkt[0] as int * 0x100 + pkt[1] + 4 <= |pkt| ==>
              var w := pkt[0] as int * 0x100 + pkt[1];
              pkt[2 + w] as int * 0x100 + pkt[3 + w] + w + 4 > |pkt| ==>
                DecodeUpdate(pkt, addPath) == Err(UpdateError(1))
  {
    hide DecodeField, DecodeAttrs;
  }

  /** A message is a marker of ones, its own length, its type and the update, in at most 4096 octets. */
  lemma MessageOnWire(u: Update)
    requires ValidUpdate(u)
    ensures EncodeMessage(u).Some? <==> |EncodeUpdate(u)| + 19 <= 4096
    ensures EncodeMessage(u).Some? ==>
              var m := EncodeMessage(u).value;
              && |m| == |EncodeUpdate(u)| + 19 && (forall i :: 0 <= i < 16 ==> m[i] == 0xff)
              && m[16] as int * 0x100 + m[17] == |m| && m[18] == 2 && m[19..] == EncodeUpdate(u)
  {
    hide EncodeUpdate, ValidUpdate;
    if EncodeMessage(u).Some? { NumbersOnWire(19 + |EncodeUpdate(u)|, 0); }
  }

  lemma EncodedSize(u: Update)
    requires ValidUpdate(u)
    ensures |EncodeUpdate(u)| == 4 + |EncodeNlris(u.withdrawn)| + |EncodeAttrs(u.attrs)| + |EncodeNlris(u.nlri)|
  {
    hide EncodeNlris, EncodeAttrs;
  }

  // ---------- The message ----------

  const MSG_TYPE_UPDATE: U8 := 2
  const AS4_PATH: U8 := 17
  const AS4_AGGREGATOR: U8 := 18

  /** Takes the first attribute of a code out. */
  function WithoutFirst(attrs: seq<Attr>, code: U8): seq<Attr> {
    if attrs == [] then []
    else if Code(attrs[0]) == code then attrs[1..]
    else [attrs[0]] + WithoutFirst(attrs[1..], code)
  }

  /** On a session with four-byte numbers the attributes that stand in for them are dropped. */
  function Normalized(u: Update): Update {
    if exists i :: 0 <= i < |u.attrs| && u.attrs[i].ASPath? then
      u.(attrs := WithoutFirst(WithoutFirst(u.attrs, AS4_AGGREGATOR), AS4_PATH))
    else u
  }

  lemma {:induction false} WithoutNone(attrs: seq<Attr>, code: U8)
    requires code in {AS4_PATH, AS4_AGGREGATOR} && AllFaithful(attrs)
    ensures WithoutFirst(attrs, code) == attrs
  {
    if attrs != [] {
      assert Faithful(attrs[0]);
      WithoutNone(attrs[1..], code);
    }
  }

  /** The message behind a marker of sixteen ones, or None if it would be too long. */
  function EncodeMessage(u: Update): Option<seq<U8>>
    requires ValidUpdate(u)
  {
    var body := EncodeUpdate(u);
    if MSG_HEADER_LEN + |body| > MSG_MAX_LEN then None
    else Some(seq(16, _ => 0xff) + Be16(MSG_HEADER_LEN + |body|) + [MSG_TYPE_UPDATE] + body)
  }

  /** Takes a message off a stream of bytes: the header says how many belong to it. */
  function DecodeMessage(stream: seq<U8>, addPath: bool): Result<Update> {
    if |stream| < MSG_HEADER_LEN then Err(Fault)
    else
      var length := Uint16(stream[16..]);
      if length < MSG_HEADER_LEN || length > |stream| then Err(Fault)
      else if stream[18] != MSG_TYPE_UPDATE then Err(Unmodelled)
      else
        var u := DecodeUpdate(stream[MSG_HEADER_LEN..length], addPath);
        if u.Ok? then Ok(Normalized(u.value)) else u
  }

  lemma Framed(body: seq<U8>, following: seq<U8>)
    requires MSG_HEADER_LEN + |body| <= MSG_MAX_LEN
    ensures var length := MSG_HEADER_LEN + |body|;
            var stream := seq(16, _ => 0xff) + Be16(length) + [MSG_TYPE_UPDATE] + body + following;
            && |stream| >= length && Uint16(stream[16..]) == length && stream[18] == MSG_TYPE_UPDATE
            && stream[MSG_HEADER_LEN..length] == body
  {
    var length := MSG_HEADER_LEN + |body|;
    var marker: seq<U8> := seq(16, _ => 0xff);
    var rest := [MSG_TYPE_UPDATE] + body + following;
    TwoBytes(length);
    hide Be16, Uint16;
    var stream := marker + Be16(length) + [MSG_TYPE_UPDATE] + body + following;
    assert stream[16..] == Be16(length) + rest;
    Uint16Be16(length, rest);
  }

  lemma MessageRoundTrip(u: Update, addPath: bool, following: seq<U8>)
    requires FaithfulUpdate(u, addPath) && ValidUpdate(u) && EncodeMessage(u).Some?
    ensures DecodeMessage(EncodeMessage(u).value + following, addPath) == Ok(u)
  {
    UpdateRoundTrip(u, addPath);
    WithoutNone(u.attrs, AS4_AGGREGATOR);
    WithoutNone(u.attrs, AS4_PATH);
    hide EncodeUpdate, DecodeUpdate, FaithfulUpdate, ValidUpdate, Be16, Uint16;
    Framed(EncodeUpdate(u), following);
  }

  lemma TwoBytes(n: U16)
    ensures |Be16(n)| == 2
  {
  }

  // ---------- The loops ----------

  method WriteNlris(pkt: seq<U8>, ns: seq<Nlri>) returns (r: seq<U8>)
    requires AllValid(ns)
    ensures r == pkt + EncodeNlris(ns)
  {
    hide EncodeNlri, ValidNlri;
    r := pkt;
    for i := 0 to |ns|
      invariant r == pkt + EncodeNlris(ns[..i])
    {
      assert ns[..i + 1] == ns[..i] + [ns[i]];
      EncodeNlrisSnoc(ns[..i], ns[i]);
      r := r + EncodeNlri(ns[i]);
    }
    assert ns[..|ns|] == ns;
  }

  method WriteUpdate(u: Update) returns (pkt: seq<U8>)
    requires ValidUpdate(u)
    ensures pkt == EncodeUpdate(u)
  {
    hide EncodeNlris, EncodeAttr, Body, AllValid;
    pkt := [0, 0];
    pkt := WriteNlris(pkt, u.withdrawn);
    var wdLen := |pkt|;
    pkt := Be16((wdLen - 2) % WRAP) + pkt[2..];
    ghost var front := pkt;
    pkt := pkt + [0, 0];
    ghost var start := pkt;
    for i := 0 to |u.attrs|
      invariant AllAttrsValid(u.attrs[..i]) && pkt == start + EncodeAttrs(u.attrs[..i])
    {
      assert u.attrs[..i + 1] == u.attrs[..i] + [u.attrs[i]];
      EncodeAttrsSnoc(u.attrs[..i], u.attrs[i]);
      pkt := pkt + EncodeAttr(u.attrs[i]);
    }
    assert u.attrs[..|u.attrs|] == u.attrs;
    ghost var a := EncodeAttrs(u.attrs);
    var paLen := |pkt| - wdLen;
    pkt := pkt[..wdLen] + Be16((paLen - 2) % WRAP) + pkt[wdLen + 2..];
    assert pkt == front + Be16(|a| % WRAP) + a;
    pkt := WriteNlris(pkt, u.nlri);
  }

  method ReadAttrs(pkt: seq<U8>, start: nat, paLen: nat) returns (r: Result<seq<Attr>>)
    ensures r == DecodeAttrs(pkt, start, paLen)
  {
    hide DecodeAttr, Prepended;
    var ptr: nat, length: int, attrs := start, paLen, [];
    PrependedNothing(DecodeAttrs(pkt, start, paLen));
    while length > 0
      invariant DecodeAttrs(pkt, start, paLen) == Prepended(attrs, DecodeAttrs(pkt, ptr, length))
    {
      PrependedError(attrs, Fault);
      if ptr + 2 > |pkt| { return Err(Fault); }
      var a := ReadAttr(pkt[ptr..]);
      if a.Err? {
        PrependedError(attrs, a.error);
        return Err(a.error);
      }
      DecodedAttrGrows(pkt[ptr..]);
      DecodeAttrsNext(pkt, ptr, length, a.value.0, a.value.1);
      PrependedTwice(attrs, [a.value.0], DecodeAttrs(pkt, ptr + a.value.1, length - a.value.1));
      attrs := attrs + [a.value.0];
      ptr := ptr + a.value.1;
      length := length - a.value.1;
    }
    if length < 0 {
      PrependedError(attrs, UpdateError(MALFORMED_ATTR_LIST));
      return Err(UpdateError(MALFORMED_ATTR_LIST));
    }
    PrependedEnd(attrs, true);
    return Ok(attrs);
  }

  method ReadUpdate(pkt: seq<U8>, addPath: bool) returns (r: Result<Update>)
    ensures r == DecodeUpdate(pkt, addPath)
  {
    hide DecodeField, DecodeAttrs;
    if |pkt| < 2 { return Err(Fault); }
    var wdLen := Uint16(pkt);
    if wdLen + 4 > |pkt| { return Err(UpdateError(MALFORMED_ATTR_LIST)); }
    var withdrawn := DecodeNLRI(pkt[2..], wdLen, addPath);
    if withdrawn.Err? { return Err(UpdateError(MALFORMED_ATTR_LIST)); }
    var ptr := 2 + wdLen;
    var paLen := Uint16(pkt[ptr..]);
    ptr := ptr + 2;
    if paLen + wdLen + 4 > |pkt| { return Err(UpdateError(MALFORMED_ATTR_LIST)); }
    var attrs := ReadAttrs(pkt, ptr, paLen);
    if attrs.Err? { return Err(attrs.error); }
    ptr := ptr + paLen;
    var nlri := DecodeNLRI(pkt[ptr..], |pkt| - ptr, addPath);
    if nlri.Err? { return Err(nlri.error); }
    return Ok(Update(withdrawn.value, attrs.value, nlri.value));
  }
}
