/**
 The decision between two paths in the fields of the paths, and that the order of the
 filters is that decision.
 */
module Decisions {
  import opened Ranking
  import opened Words

  /** `p` wins the decision between two paths by the first of seven attributes in which they differ. */
  predicate Outranks(p: Path, q: Path) {
    if p.pref != q.pref then p.pref > q.pref
    else if p.asCount != q.asCount then p.asCount < q.asCount
    else if p.origin != q.origin then p.origin < q.origin
    else if p.ebgp != q.ebgp then p.ebgp
    else if p.bgpId != q.bgpId then p.bgpId < q.bgpId
    else if p.clusterLen != q.clusterLen then p.clusterLen < q.clusterLen
    else AddressValue(p.address) < AddressValue(q.address)
  }

  /**
   The order is the comparison of the attributes: higher preference, fewer ASes, lower
   origin, external before internal, lower router id, shorter cluster list, lower peer
   address.
   */
  lemma BeforeExact(p: Path, q: Path)
    ensures Before(STAGES, p, q) <==>
            if p.pref != q.pref then p.pref > q.pref
            else if p.asCount != q.asCount then p.asCount < q.asCount
            else if p.origin != q.origin then p.origin < q.origin
            else if p.ebgp != q.ebgp then p.ebgp
            else if p.bgpId != q.bgpId then p.bgpId < q.bgpId
            else if p.clusterLen != q.clusterLen then p.clusterLen < q.clusterLen
            else AddressValue(p.address) < AddressValue(q.address)
    ensures Before(STAGES, p, q) <==> Outranks(p, q)
  {
    hide AddressValue;
    TiedFields(p, q);
    assert Before(1, p, q) <==> p.pref > q.pref;
    assert Before(2, p, q) <==> Before(1, p, q) || (Tied(1, p, q) && p.asCount < q.asCount);
    assert Before(3, p, q) <==> Before(2, p, q) || (Tied(2, p, q) && p.origin < q.origin);
    assert Before(4, p, q) <==> Before(3, p, q) || (Tied(3, p, q) && p.ebgp && !q.ebgp);
    assert Before(5, p, q) <==> Before(4, p, q) || (Tied(4, p, q) && p.bgpId < q.bgpId);
    assert Before(6, p, q) <==> Before(5, p, q) || (Tied(5, p, q) && p.clusterLen < q.clusterLen);
  }

  /** Tied on the first attributes means that they are the same. */
  lemma TiedFields(p: Path, q: Path)
    ensures Tied(1, p, q) <==> p.pref == q.pref
    ensures Tied(2, p, q) <==> p.pref == q.pref && p.asCount == q.asCount
    ensures Tied(3, p, q) <==> Tied(2, p, q) && p.origin == q.origin
    ensures Tied(4, p, q) <==> Tied(3, p, q) && p.ebgp == q.ebgp
    ensures Tied(5, p, q) <==> Tied(4, p, q) && p.bgpId == q.bgpId
    ensures Tied(6, p, q) <==> Tied(5, p, q) && p.clusterLen == q.clusterLen
  {
  }

  /** Addresses of one length compare by the first octet in which they differ. */
  lemma AddressOrder(a: seq<U8>, b: seq<U8>)
    requires |a| == |b|
    ensures AddressValue(a) < AddressValue(b) <==> exists i :: 0 <= i < |a| && a[..i] == b[..i] && a[i] < b[i]
  {
    if i :| 0 <= i < |a| && a[..i] == b[..i] && a[i] < b[i] { AddressLess(a, b, i); }
    if AddressValue(a) < AddressValue(b) {
      var i := FirstDifferent(a, b, 0);
      if a[i] > b[i] { AddressLess(b, a, i); }
      assert a[..i] == b[..i] && a[i] < b[i];
    }
  }

  lemma FirstDifferent(a: seq<U8>, b: seq<U8>, from: nat) returns (i: nat)
    requires |a| == |b| && a != b && from <= |a| && a[..from] == b[..from]
    ensures i < |a| && a[..i] == b[..i] && a[i] != b[i]
    decreases |a| - from
  {
    assert a[..|a|] == a && b[..|b|] == b;
    if a[from] != b[from] {
      i := from;
    } else {
      assert a[..from + 1] == a[..from] + [a[from]];
      assert b[..from + 1] == b[..from] + [b[from]];
      i := FirstDifferent(a, b, from + 1);
    }
  }
}
