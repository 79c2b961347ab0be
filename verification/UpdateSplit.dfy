/**
 Splitting an UPDATE into messages of at most 4096 bytes, for updates without
 multiprotocol attributes.
 */
module UpdateSplitting {
  import opened PathAttributes
  import opened UpdateMessages
  import opened Wire
  import opened Words
  import opened Wrappers

  const UPDATE_MSG_MIN_LEN := 23

  // ---------- What the pieces say together ----------

  function JoinWithdrawn(pieces: seq<Update>): seq<Nlri> {
    if pieces == [] then [] else JoinWithdrawn(pieces[..|pieces| - 1]) + pieces[|pieces| - 1].withdrawn
  }

  function JoinNlri(pieces: seq<Update>): seq<Nlri> {
    if pieces == [] then [] else JoinNlri(pieces[..|pieces| - 1]) + pieces[|pieces| - 1].nlri
  }

  lemma JoinNext(pieces: seq<Update>, p: Update)
    ensures JoinWithdrawn(pieces + [p]) == JoinWithdrawn(pieces) + p.withdrawn
    ensures JoinNlri(pieces + [p]) == JoinNlri(pieces) + p.nlri
  {
    assert (pieces + [p])[..|pieces|] == pieces;
  }

  /** A piece with prefixes carries all attributes; the others carry all or none. */
  predicate Attributed(pieces: seq<Update>, attrs: seq<Attr>) {
    forall i :: 0 <= i < |pieces| ==> pieces[i].attrs == attrs || (pieces[i].attrs == [] && pieces[i].nlri == [])
  }

  /** Nothing is withdrawn after something has been announced. */
  predicate Ordered(pieces: seq<Update>) {
    forall i, j :: 0 <= i < j < |pieces| && pieces[i].nlri != [] ==> pieces[j].withdrawn == []
  }

  // ---------- Replaying the pieces ----------

  /** The routes held from a peer: prefixes, with their path ids, and attributes. */
  type Table = map<Nlri, seq<Attr>>

  function Announced(nlri: seq<Nlri>, attrs: seq<Attr>): Table {
    map n | n in nlri :: attrs
  }

  function Applied(t: Table, u: Update): Table {
    (t - set n | n in u.withdrawn) + Announced(u.nlri, u.attrs)
  }

  function Replayed(t: Table, pieces: seq<Update>): Table {
    if pieces == [] then t else Applied(Replayed(t, pieces[..|pieces| - 1]), pieces[|pieces| - 1])
  }

  lemma {:induction false} NoneAnnounced(pieces: seq<Update>)
    ensures JoinNlri(pieces) == [] <==> forall i :: 0 <= i < |pieces| ==> pieces[i].nlri == []
  {
    if pieces != [] {
      var n := |pieces| - 1;
      var init := pieces[..n];
      NoneAnnounced(init);
      assert JoinNlri(pieces) == JoinNlri(init) + pieces[n].nlri;
      assert |JoinNlri(pieces)| == |JoinNlri(init)| + |pieces[n].nlri|;
      assert forall i :: 0 <= i < n ==> init[i] == pieces[i];
      hide JoinNlri;
    }
  }

  /** One more piece, when what came before amounts to `w` and `n`. */
  lemma AppliedNext(t: Table, w: seq<Nlri>, n: seq<Nlri>, attrs: seq<Attr>, p: Update)
    requires p.nlri != [] ==> p.attrs == attrs
    requires n != [] ==> p.withdrawn == []
    ensures Applied(Applied(t, Update(w, attrs, n)), p) == Applied(t, Update(w + p.withdrawn, attrs, n + p.nlri))
  {
    var before, both := Applied(t, Update(w, attrs, n)), Applied(t, Update(w + p.withdrawn, attrs, n + p.nlri));
    var after := Applied(before, p);
    forall k ensures k in after <==> k in both {}
    forall k | k in after ensures after[k] == both[k] {}
  }

  /** Replaying pieces in order changes a table as the whole update does. */
  lemma {:induction false} ReplayIsWhole(t: Table, pieces: seq<Update>, attrs: seq<Attr>)
    requires Attributed(pieces, attrs) && Ordered(pieces)
    ensures Replayed(t, pieces) == Applied(t, Update(JoinWithdrawn(pieces), attrs, JoinNlri(pieces)))
  {
    hide Applied;
    if pieces == [] {
      NothingApplied(t, attrs);
    } else {
      var init, p := pieces[..|pieces| - 1], pieces[|pieces| - 1];
      ReplayIsWhole(t, init, attrs);
      NoneAnnounced(init);
      AppliedNext(t, JoinWithdrawn(init), JoinNlri(init), attrs, p);
    }
  }

  lemma NothingApplied(t: Table, attrs: seq<Attr>)
    ensures Applied(t, Update([], attrs, [])) == t
  {
  }

  // ---------- Sizes ----------

  function Size(ns: seq<Nlri>): nat
    requires AllValid(ns)
  {
    |EncodeNlris(ns)|
  }

  function AttrsSize(attrs: seq<Attr>): nat
    requires AllAttrsValid(attrs)
  {
    |EncodeAttrs(attrs)|
  }

  lemma SizeNext(ns: seq<Nlri>, lo: nat, hi: nat)
    requires AllValid(ns) && lo <= hi < |ns|
    ensures Size(ns[lo..hi + 1]) == Size(ns[lo..hi]) + Len(ns[hi]) && Len(ns[hi]) <= 9
  {
    assert ns[lo..hi + 1] == ns[lo..hi] + [ns[hi]];
    EncodeNlrisSnoc(ns[lo..hi], ns[hi]);
  }

  lemma PieceSize(p: Update)
    requires ValidUpdate(p)
    ensures EncodeMessage(p).Some? <==>
              UPDATE_MSG_MIN_LEN + Size(p.withdrawn) + AttrsSize(p.attrs) + Size(p.nlri) <= MSG_MAX_LEN
  {
    EncodedSize(p);
  }

  /** The piece fits a message. */
  predicate Fits(p: Update) {
    ValidUpdate(p) && EncodeMessage(p).Some?
  }

  predicate AllFit(pieces: seq<Update>) {
    forall i :: 0 <= i < |pieces| ==> Fits(pieces[i])
  }

  /** A prefix fits a message with all attributes and nothing else. */
  predicate FitsAlone(n: Nlri, attrs: seq<Attr>)
    requires AllAttrsValid(attrs)
  {
    UPDATE_MSG_MIN_LEN + AttrsSize(attrs) + Len(n) <= MSG_MAX_LEN
  }

  // ---------- No message more than needed ----------

  /** One more withdrawn prefix would make the piece too long. */
  predicate NoRoomToWithdraw(p: Update, n: Nlri) {
    ValidUpdate(p) && UPDATE_MSG_MIN_LEN + Size(p.withdrawn) + Len(n) > MSG_MAX_LEN
  }

  /** One more announced prefix would. */
  predicate NoRoomToAnnounce(p: Update, n: Nlri) {
    && ValidUpdate(p)
    && UPDATE_MSG_MIN_LEN + Size(p.withdrawn) + AttrsSize(p.attrs) + Size(p.nlri) + Len(n) > MSG_MAX_LEN
  }

  /** A piece that could carry the first prefix of the next one has no room for it. */
  predicate Tight(p: Update, q: Update, attrs: seq<Attr>) {
    && (q.withdrawn != [] ==> NoRoomToWithdraw(p, q.withdrawn[0]))
    && (q.withdrawn == [] && q.nlri != [] && p.attrs == attrs ==> NoRoomToAnnounce(p, q.nlri[0]))
  }

  predicate AllTight(pieces: seq<Update>, attrs: seq<Attr>) {
    forall i :: 0 <= i < |pieces| - 1 ==> Tight(pieces[i], pieces[i + 1], attrs)
  }

  lemma TightNext(pieces: seq<Update>, p: Update, attrs: seq<Attr>)
    requires AllTight(pieces, attrs) && (pieces != [] ==> Tight(pieces[|pieces| - 1], p, attrs))
    ensures AllTight(pieces + [p], attrs)
  {
    hide Tight;
    var all := pieces + [p];
    forall i | 0 <= i < |all| - 1 ensures Tight(all[i], all[i + 1], attrs) {
      if i == |pieces| - 1 { assert all[i] == pieces[i] && all[i + 1] == p; }
    }
  }

  /** A piece that withdraws follows one that has no room for its first prefix. */
  lemma WithdrawnNext(pieces: seq<Update>, p: Update, attrs: seq<Attr>)
    requires AllTight(pieces, attrs) && p.withdrawn != []
    requires pieces != [] ==> NoRoomToWithdraw(pieces[|pieces| - 1], p.withdrawn[0])
    ensures AllTight(pieces + [p], attrs)
  {
    hide AllTight, NoRoomToWithdraw, NoRoomToAnnounce;
    TightNext(pieces, p, attrs);
  }

  /** A piece that announces follows `first`, or one that has no room for its first prefix. */
  lemma AnnouncedNext(first: seq<Update>, pieces: seq<Update>, rest0: seq<Nlri>, p: Update, attrs: seq<Attr>)
    requires AllTight(pieces, attrs) && Continues(first, rest0, attrs)
    requires if pieces == first then p.withdrawn == rest0
             else p.withdrawn == [] && pieces != [] && p.nlri != [] && NoRoomToAnnounce(pieces[|pieces| - 1], p.nlri[0])
    ensures AllTight(pieces + [p], attrs)
  {
    hide AllTight, NoRoomToWithdraw, NoRoomToAnnounce;
    TightNext(pieces, p, attrs);
  }

  lemma RoomUsed(p: Update, n: Nlri)
    requires ValidUpdate(p)
    ensures UPDATE_MSG_MIN_LEN + Size(p.withdrawn) + Len(n) > MSG_MAX_LEN ==> NoRoomToWithdraw(p, n)
    ensures UPDATE_MSG_MIN_LEN + Size(p.withdrawn) + AttrsSize(p.attrs) + Size(p.nlri) + Len(n) > MSG_MAX_LEN ==>
              NoRoomToAnnounce(p, n)
  {
  }

  /** What has to hold before announcements follow `first`, of which `rest` is left to be withdrawn. */
  predicate Continues(first: seq<Update>, rest: seq<Nlri>, attrs: seq<Attr>) {
    first != [] ==>
      if rest == [] then first[|first| - 1].attrs != attrs else NoRoomToWithdraw(first[|first| - 1], rest[0])
  }

  lemma {:induction false} SizeOfPart(ns: seq<Nlri>, i: nat)
    requires AllValid(ns) && i <= |ns|
    ensures Size(ns[..i]) <= Size(ns)
    decreases |ns| - i
  {
    hide Len, EncodeNlris;
    if i == |ns| {
      assert ns[..i] == ns;
    } else {
      SizeNext(ns, 0, i);
      assert ns[0..i] == ns[..i] && ns[0..i + 1] == ns[..i + 1];
      SizeOfPart(ns, i + 1);
    }
  }

  // ---------- The greedy split ----------

  /** What the loop over the announced prefixes keeps: `rest` is still to be withdrawn, `open` to be announced. */
  ghost predicate Splitting(pieces: seq<Update>, rest: seq<Nlri>, open: seq<Nlri>, u: Update, done: nat)
    requires done <= |u.nlri|
  {
    && JoinWithdrawn(pieces) + rest == u.withdrawn
    && JoinNlri(pieces) + open == u.nlri[..done]
    && Attributed(pieces, u.attrs) && Ordered(pieces)
    && (JoinNlri(pieces) != [] ==> rest == [])
  }

  /** Once a piece announces, nothing is left to be withdrawn. */
  lemma PieceAdded(pieces: seq<Update>, rest: seq<Nlri>, open: seq<Nlri>, u: Update, done: nat)
    requires done <= |u.nlri| && Splitting(pieces, rest, open, u, done)
    ensures Splitting(pieces + [Update(rest, u.attrs, open)], [], [], u, done)
    ensures open == [] ==> Splitting(pieces + [Update(rest, [], [])], [], [], u, done)
  {
    NoneAnnounced(pieces);
    JoinNext(pieces, Update(rest, u.attrs, open));
    JoinNext(pieces, Update(rest, [], []));
    assert JoinWithdrawn(pieces) + rest + [] == u.withdrawn;
    assert JoinNlri(pieces) + open + [] == u.nlri[..done];
    hide JoinNlri, JoinWithdrawn;
  }

  lemma NothingAdded(pieces: seq<Update>, u: Update, done: nat)
    requires done <= |u.nlri| && Splitting(pieces, [], [], u, done) && done == |u.nlri|
    ensures JoinWithdrawn(pieces) == u.withdrawn && JoinNlri(pieces) == u.nlri
    ensures Attributed(pieces, u.attrs) && Ordered(pieces)
  {
    assert JoinWithdrawn(pieces) + [] == u.withdrawn;
    assert JoinNlri(pieces) + [] == u.nlri[..done] == u.nlri;
  }

  lemma {:induction false} JoinNlriMember(pieces: seq<Update>, n: Nlri) returns (i: nat)
    requires n in JoinNlri(pieces)
    ensures i < |pieces| && n in pieces[i].nlri
  {
    i := |pieces| - 1;
    if n !in pieces[i].nlri { i := JoinNlriMember(pieces[..i], n); }
  }

  lemma {:induction false} MemberSize(ns: seq<Nlri>, n: Nlri)
    requires AllValid(ns) && n in ns
    ensures Size(ns) >= Len(n)
  {
    hide EncodeNlri, Len;
    if ns[0] != n { MemberSize(ns[1..], n); }
  }

  /** A prefix that does not fit alone makes the piece that announces it too long. */
  lemma MisfitShows(pieces: seq<Update>, u: Update, n: Nlri)
    requires ValidUpdate(u) && Attributed(pieces, u.attrs) && JoinNlri(pieces) == u.nlri
    requires n in u.nlri && !FitsAlone(n, u.attrs)
    ensures !AllFit(pieces)
  {
    var i := JoinNlriMember(pieces, n);
    var p := pieces[i];
    if ValidUpdate(p) {
      MemberSize(p.nlri, n);
      PieceSize(p);
    }
  }

  predicate AllFitAlone(ns: seq<Nlri>, attrs: seq<Attr>)
    requires AllAttrsValid(attrs)
  {
    forall i :: 0 <= i < |ns| ==> FitsAlone(ns[i], attrs)
  }

  predicate NoMultiprotocol(attrs: seq<Attr>) {
    forall i :: 0 <= i < |attrs| ==> Code(attrs[i]) !in {14, 15}
  }

  /** Pieces that only withdraw. */
  predicate Withdrawing(pieces: seq<Update>) {
    forall i :: 0 <= i < |pieces| ==> pieces[i].withdrawn != [] && pieces[i].attrs == [] && pieces[i].nlri == []
  }

  /** Pieces that carry all attributes and are not empty. */
  predicate Full(pieces: seq<Update>, attrs: seq<Attr>) {
    forall i :: 0 <= i < |pieces| ==> pieces[i].attrs == attrs && pieces[i] != Update([], [], [])
  }

  /** The pieces of withdrawn prefixes alone, and the last ones, which may share a message with announcements. */
  method SplitWithdrawn(u: Update) returns (pieces: seq<Update>, rest: seq<Nlri>, pktLen: nat)
    requires ValidUpdate(u)
    ensures AllValid(rest) && pktLen == UPDATE_MSG_MIN_LEN + Size(rest) <= MSG_MAX_LEN
    ensures AllFit(pieces) && Splitting(pieces, rest, [], u, 0)
    ensures Withdrawing(pieces) && (pieces == [] <==> UPDATE_MSG_MIN_LEN + Size(u.withdrawn) <= MSG_MAX_LEN)
    ensures (pieces == [] ==> rest == u.withdrawn) && (rest == [] <==> u.withdrawn == [])
    ensures AllTight(pieces, u.attrs)
    ensures pieces != [] ==> rest != [] && NoRoomToWithdraw(pieces[|pieces| - 1], rest[0])
  {
    hide EncodeMessage, Len, EncodeNlris, ValidNlri, EncodeAttrs, Splitting, AllTight, NoRoomToAnnounce,
      NoRoomToWithdraw, AllFit, Withdrawing;
    var startIdx := 0;
    pieces, pktLen := [], UPDATE_MSG_MIN_LEN;
    ghost var ws := u.withdrawn;
    NothingSized();
    assert ws[0..0] == [] && ws[..0] == [];
    NothingSplit(u);
    NoPieces(u.attrs);
    for lastIdx := 0 to |u.withdrawn|
      invariant startIdx <= lastIdx && (lastIdx > startIdx || lastIdx == 0)
      invariant pktLen == UPDATE_MSG_MIN_LEN + Size(ws[startIdx..lastIdx]) <= MSG_MAX_LEN
      invariant Splitting(pieces, ws[startIdx..lastIdx], [], u.(withdrawn := ws[..lastIdx]), 0) && AllFit(pieces)
      invariant Withdrawing(pieces) && (lastIdx == 0 || pieces == [] ==> startIdx == 0)
      invariant pieces == [] <==> UPDATE_MSG_MIN_LEN + Size(ws[..lastIdx]) <= MSG_MAX_LEN
      invariant AllTight(pieces, u.attrs)
      invariant pieces != [] ==> startIdx < |ws| && NoRoomToWithdraw(pieces[|pieces| - 1], ws[startIdx])
    {
      SizeNext(ws, startIdx, lastIdx);
      SizeNext(ws, 0, lastIdx);
      assert ws[0..lastIdx] == ws[..lastIdx] && ws[0..lastIdx + 1] == ws[..lastIdx + 1];
      var nlriLen := Len(u.withdrawn[lastIdx]);
      if nlriLen + pktLen > MSG_MAX_LEN {
        var p := Update(u.withdrawn[startIdx..lastIdx], [], []);
        PieceSize(p);
        PieceAdded(pieces, p.withdrawn, [], u.(withdrawn := ws[..lastIdx]), 0);
        WithdrawnNext(pieces, p, u.attrs);
        WithdrawingPiece(pieces, p);
        FitsNext(pieces, p);
        RoomUsed(p, u.withdrawn[lastIdx]);
        pieces := pieces + [p];
        startIdx := lastIdx;
        pktLen := UPDATE_MSG_MIN_LEN;
        SizeNext(ws, lastIdx, lastIdx);
        assert ws[lastIdx..lastIdx] == [];
      }
      WithdrawingNext(pieces, startIdx, u, lastIdx);
      pktLen := pktLen + nlriLen;
    }
    rest := u.withdrawn[startIdx..];
    assert rest == ws[startIdx..|ws|] && ws == ws[..|ws|];
    assert u.(withdrawn := ws) == u;
  }

  lemma NoPieces(attrs: seq<Attr>)
    ensures AllTight([], attrs) && AllFit([]) && Withdrawing([])
  {
  }

  /** One more piece that only withdraws. */
  lemma WithdrawingPiece(pieces: seq<Update>, p: Update)
    requires Withdrawing(pieces)
    requires p.withdrawn != [] && p.attrs == [] && p.nlri == []
    ensures Withdrawing(pieces + [p])
  {
  }

  lemma FitsNext(pieces: seq<Update>, p: Update)
    ensures AllFit(pieces + [p]) <==> AllFit(pieces) && Fits(p)
  {
    hide Fits;
    var all := pieces + [p];
    assert all[|pieces|] == p && forall i :: 0 <= i < |pieces| ==> all[i] == pieces[i];
  }

  lemma NothingSplit(u: Update)
    ensures Splitting([], [], [], u.(withdrawn := []), 0)
  {
  }

  lemma WithdrawingNext(pieces: seq<Update>, lo: nat, u: Update, i: nat)
    requires lo <= i < |u.withdrawn|
    requires Splitting(pieces, u.withdrawn[lo..i], [], u.(withdrawn := u.withdrawn[..i]), 0)
    ensures Splitting(pieces, u.withdrawn[lo..i + 1], [], u.(withdrawn := u.withdrawn[..i + 1]), 0)
  {
    hide JoinNlri, JoinWithdrawn, Attributed, Ordered;
    var w := u.withdrawn;
    assert w[lo..i + 1] == w[lo..i] + [w[i]];
    assert w[..i + 1] == w[..i] + [w[i]];
    assert JoinWithdrawn(pieces) + (w[lo..i] + [w[i]]) == (JoinWithdrawn(pieces) + w[lo..i]) + [w[i]];
    assert JoinNlri(pieces) + [] == JoinNlri(pieces);
  }

  lemma NothingSized()
    ensures Size([]) == 0 && AttrsSize([]) == 0
  {
  }

  /** The sum of the lengths of the attributes. */
  method AttrsLen(attrs: seq<Attr>) returns (paLen: nat)
    requires AllAttrsValid(attrs)
    ensures paLen == AttrsSize(attrs)
  {
    hide Body;
    paLen := 0;
    for i := 0 to |attrs|
      invariant AllAttrsValid(attrs[..i]) && paLen == AttrsSize(attrs[..i])
    {
      assert attrs[..i + 1] == attrs[..i] + [attrs[i]];
      EncodeAttrsSnoc(attrs[..i], attrs[i]);
      paLen := paLen + |Body(attrs[i])| + HeaderLen(Flags(attrs[i]));
    }
    assert attrs[..|attrs|] == attrs;
  }

  /** The pieces that announce; the first of them takes the withdrawn prefixes that are left. */
  method SplitNlri(u: Update, first: seq<Update>, rest0: seq<Nlri>, pktLen0: nat, paLen: nat)
    returns (pieces: seq<Update>)
    requires ValidUpdate(u) && AllValid(rest0) && Splitting(first, rest0, [], u, 0) && AllFit(first)
    requires pktLen0 == UPDATE_MSG_MIN_LEN + Size(rest0) && paLen == AttrsSize(u.attrs)
    requires pktLen0 + paLen <= MSG_MAX_LEN || rest0 == []
    requires AllTight(first, u.attrs) && Continues(first, rest0, u.attrs)
    ensures JoinWithdrawn(pieces) == u.withdrawn && JoinNlri(pieces) == u.nlri
    ensures Attributed(pieces, u.attrs) && Ordered(pieces)
    ensures AllFitAlone(u.nlri, u.attrs) ==> AllFit(pieces)
    ensures first <= pieces && Full(pieces[|first|..], u.attrs)
    ensures u.nlri == [] && rest0 == [] ==> pieces == first
    ensures AllTight(pieces, u.attrs)
    ensures pktLen0 + paLen + Size(u.nlri) <= MSG_MAX_LEN && (rest0 != [] || u.nlri != []) ==>
              pieces == first + [Update(rest0, u.attrs, u.nlri)]
  {
    hide EncodeMessage, Len, EncodeNlris, ValidNlri, EncodeAttrs, Splitting, Attributed, Ordered,
      JoinNlri, JoinWithdrawn, AllTight, NoRoomToAnnounce, Continues, AllFit;
    var rest, pktLen, startIdx := rest0, pktLen0, 0;
    ghost var ns := u.nlri;
    pieces := first;
    NothingSized();
    assert ns[0..0] == [];
    for lastIdx := 0 to |u.nlri|
      invariant startIdx <= lastIdx && (lastIdx > startIdx || lastIdx == 0) && AllValid(rest)
      invariant pktLen == UPDATE_MSG_MIN_LEN + Size(rest) + Size(ns[startIdx..lastIdx])
      invariant Splitting(pieces, rest, ns[startIdx..lastIdx], u, lastIdx)
      invariant lastIdx == 0 ==> pieces == first && rest == rest0 && startIdx == 0
      invariant first <= pieces && Full(pieces[|first|..], u.attrs)
      invariant AllFitAlone(ns[..lastIdx], u.attrs) ==> AllFit(pieces)
      invariant AllFitAlone(ns[..lastIdx], u.attrs) && (lastIdx > 0 || rest != []) ==> pktLen + paLen <= MSG_MAX_LEN
      invariant AllTight(pieces, u.attrs)
      invariant if pieces == first then rest == rest0 && startIdx == 0
                else rest == [] && startIdx < |ns| && NoRoomToAnnounce(pieces[|pieces| - 1], ns[startIdx])
      invariant pktLen0 + paLen + Size(ns) <= MSG_MAX_LEN ==> pieces == first
    {
      SizeNext(ns, startIdx, lastIdx);
      SizeOfPart(ns, lastIdx + 1);
      assert ns[0..lastIdx + 1] == ns[..lastIdx + 1];
      PrefixFits(ns, lastIdx, u.attrs);
      var nlriLen := Len(u.nlri[lastIdx]);
      if nlriLen + pktLen + paLen > MSG_MAX_LEN {
        var p := Update(rest, u.attrs, u.nlri[startIdx..lastIdx]);
        PieceSize(p);
        PieceAdded(pieces, rest, ns[startIdx..lastIdx], u, lastIdx);
        FullNext(first, pieces, p);
        AnnouncedNext(first, pieces, rest0, p, u.attrs);
        FitsNext(pieces, p);
        RoomUsed(p, u.nlri[lastIdx]);
        pieces := pieces + [p];
        rest, startIdx, pktLen := [], lastIdx, UPDATE_MSG_MIN_LEN;
        SizeNext(ns, lastIdx, lastIdx);
        assert ns[lastIdx..lastIdx] == [];
      }
      SplittingNext(pieces, rest, startIdx, u, lastIdx);
      pktLen := pktLen + nlriLen;
    }
    assert ns[..|ns|] == ns;
    if rest != [] || |u.nlri| > startIdx {
      var p := Update(rest, u.attrs, u.nlri[startIdx..]);
      assert ns[startIdx..|ns|] == p.nlri;
      PieceSize(p);
      PieceAdded(pieces, rest, p.nlri, u, |ns|);
      FullNext(first, pieces, p);
      AnnouncedNext(first, pieces, rest0, p, u.attrs);
      FitsNext(pieces, p);
      pieces := pieces + [p];
    } else {
      assert ns[startIdx..|ns|] == [];
    }
    NothingAdded(pieces, u, |ns|);
  }

  lemma FullNext(first: seq<Update>, pieces: seq<Update>, p: Update)
    requires first <= pieces && Full(pieces[|first|..], p.attrs) && p != Update([], [], [])
    ensures first <= pieces + [p] && Full((pieces + [p])[|first|..], p.attrs)
  {
    assert (pieces + [p])[|first|..] == pieces[|first|..] + [p];
  }

  /** Which pieces have no attributes, and whether one is empty. */
  lemma BarePieces(withdrawing: seq<Update>, extra: seq<Update>, full: seq<Update>, attrs: seq<Attr>)
    requires Withdrawing(withdrawing) && Full(full, attrs)
    requires |extra| <= 1 && forall i :: 0 <= i < |extra| ==> extra[i].attrs == [] && extra[i].nlri == []
    ensures var pieces := withdrawing + extra + full;
            && (attrs != [] ==> ((exists p :: p in pieces && p.attrs == []) <==> withdrawing != [] || extra != []))
            && (Update([], [], []) in pieces <==> extra == [Update([], [], [])])
  {
    var pieces := withdrawing + extra + full;
    if withdrawing != [] { assert withdrawing[0] in pieces; }
    if extra != [] { assert extra[0] in pieces; }
  }

  lemma PrefixFits(ns: seq<Nlri>, i: nat, attrs: seq<Attr>)
    requires i < |ns| && AllAttrsValid(attrs)
    ensures AllFitAlone(ns[..i + 1], attrs) <==> AllFitAlone(ns[..i], attrs) && FitsAlone(ns[i], attrs)
  {
    hide FitsAlone;
    assert ns[..i + 1] == ns[..i] + [ns[i]];
  }

  lemma SplittingNext(pieces: seq<Update>, rest: seq<Nlri>, lo: nat, u: Update, i: nat)
    requires lo <= i < |u.nlri| && Splitting(pieces, rest, u.nlri[lo..i], u, i)
    ensures Splitting(pieces, rest, u.nlri[lo..i + 1], u, i + 1)
  {
    hide JoinNlri, JoinWithdrawn, Attributed, Ordered;
    assert u.nlri[lo..i + 1] == u.nlri[lo..i] + [u.nlri[i]];
    assert u.nlri[..i + 1] == u.nlri[..i] + [u.nlri[i]];
    assert JoinNlri(pieces) + (u.nlri[lo..i] + [u.nlri[i]]) == (JoinNlri(pieces) + u.nlri[lo..i]) + [u.nlri[i]];
  }

  /**
   The pieces say together, in order, what the update says; every piece with prefixes
   carries all attributes; and every piece fits a message if and only if every
   announced prefix does with the attributes alone.  A piece without attributes is sent
   if and only if the withdrawn prefixes and the attributes do not fit a message
   together, and an empty one if and only if the attributes alone do not.
   */
  method ConstructMaxSizedUpdatePackets(u: Update) returns (pieces: seq<Update>)
    requires ValidUpdate(u) && NoMultiprotocol(u.attrs)
    ensures JoinWithdrawn(pieces) == u.withdrawn && JoinNlri(pieces) == u.nlri
    ensures Attributed(pieces, u.attrs) && Ordered(pieces)
    ensures AllFit(pieces) <==> AllFitAlone(u.nlri, u.attrs)
    ensures forall t :: Replayed(t, pieces) == Applied(t, u)
    ensures u.attrs != [] ==>
              ((exists p :: p in pieces && p.attrs == []) <==>
               UPDATE_MSG_MIN_LEN + Size(u.withdrawn) + AttrsSize(u.attrs) > MSG_MAX_LEN)
    ensures Update([], [], []) in pieces <==>
              u.withdrawn == [] && UPDATE_MSG_MIN_LEN + AttrsSize(u.attrs) > MSG_MAX_LEN
    ensures u.withdrawn == [] && u.nlri == [] && UPDATE_MSG_MIN_LEN + AttrsSize(u.attrs) <= MSG_MAX_LEN ==> pieces == []
    ensures EncodeMessage(u).Some? && (u.withdrawn != [] || u.nlri != []) ==> pieces == [u]
    ensures AllTight(pieces, u.attrs)
  {
    hide EncodeMessage, Len, EncodeNlris, ValidNlri, EncodeAttrs, Attributed, Ordered, JoinNlri,
      JoinWithdrawn, FitsAlone, AllTight, NoRoomToAnnounce, NoRoomToWithdraw;
    var rest, pktLen;
    PieceSize(u);
    pieces, rest, pktLen := SplitWithdrawn(u);
    var paLen := AttrsLen(u.attrs);
    ghost var withdrawing, extra := pieces, [];
    if pktLen + paLen > MSG_MAX_LEN {
      extra := [Update(rest, [], [])];
      PieceAdded(pieces, rest, [], u, 0);
      PieceSize(Update(rest, [], []));
      NothingSized();
      assert AllTight(pieces + [Update(rest, [], [])], u.attrs) by {
        if rest != [] {
          WithdrawnNext(pieces, Update(rest, [], []), u.attrs);
        } else {
          TightNext([], Update(rest, [], []), u.attrs);
        }
      }
      pieces := pieces + [Update(rest, [], [])];
      rest, pktLen := [], UPDATE_MSG_MIN_LEN;
    }
    ghost var first := pieces;
    assert first == withdrawing + extra;
    pieces := SplitNlri(u, pieces, rest, pktLen, paLen);
    assert pieces == withdrawing + extra + pieces[|first|..];
    BarePieces(withdrawing, extra, pieces[|first|..], u.attrs);
    if !AllFitAlone(u.nlri, u.attrs) {
      var i :| 0 <= i < |u.nlri| && !FitsAlone(u.nlri[i], u.attrs);
      MisfitShows(pieces, u, u.nlri[i]);
    }
    forall t ensures Replayed(t, pieces) == Applied(t, u) { ReplayIsWhole(t, pieces, u.attrs); }
  }

  // ---------- At the receiver ----------

  lemma {:induction false} PieceWithin(pieces: seq<Update>, i: nat)
    requires i < |pieces|
    ensures forall n :: n in pieces[i].withdrawn ==> n in JoinWithdrawn(pieces)
    ensures forall n :: n in pieces[i].nlri ==> n in JoinNlri(pieces)
  {
    var last := |pieces| - 1;
    if i < last { PieceWithin(pieces[..last], i); }
  }

  lemma PieceFaithful(p: Update, u: Update, addPath: bool)
    requires FaithfulUpdate(u, addPath) && (p.attrs == u.attrs || p.attrs == [])
    requires (forall n :: n in p.withdrawn ==> n in u.withdrawn) && (forall n :: n in p.nlri ==> n in u.nlri)
    ensures FaithfulUpdate(p, addPath)
  {
    hide Canonical, Faithful;
    forall i | 0 <= i < |p.withdrawn| ensures Canonical(p.withdrawn[i].ip) && p.withdrawn[i].pathId.Some? == addPath {
      assert p.withdrawn[i] in u.withdrawn;
    }
    forall i | 0 <= i < |p.nlri| ensures Canonical(p.nlri[i].ip) && p.nlri[i].pathId.Some? == addPath {
      assert p.nlri[i] in u.nlri;
    }
  }

  /** The receiver decodes each message of a split update to the piece that was sent. */
  lemma PiecesDelivered(u: Update, pieces: seq<Update>, i: nat, addPath: bool, following: seq<U8>)
    requires FaithfulUpdate(u, addPath) && AllFit(pieces) && i < |pieces|
    requires JoinWithdrawn(pieces) == u.withdrawn && JoinNlri(pieces) == u.nlri && Attributed(pieces, u.attrs)
    ensures DecodeMessage(EncodeMessage(pieces[i]).value + following, addPath) == Ok(pieces[i])
  {
    PieceWithin(pieces, i);
    PieceFaithful(pieces[i], u, addPath);
    hide FaithfulUpdate, EncodeMessage, DecodeMessage, ValidUpdate;
    assert Fits(pieces[i]);
    MessageRoundTrip(pieces[i], addPath, following);
  }
}
