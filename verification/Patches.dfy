/** Images built by laying patches over each other: at every byte the last patch that covers it wins. */
module Patches {
  import opened Bytes

  datatype Patch = Patch(at: nat, data: seq<byte>) {
    predicate Covers(a: nat) { at <= a < at + |data| }
  }

  ghost predicate Fit(ps: seq<Patch>, size: nat) {
    forall k :: 0 <= k < |ps| ==> ps[k].at + |ps[k].data| <= size
  }

  function Apply(img: seq<byte>, p: Patch): (r: seq<byte>)
    requires p.at + |p.data| <= |img|
    ensures |r| == |img|
  {
    img[..p.at] + p.data + img[p.at + |p.data|..]
  }

  function ApplyAll(img: seq<byte>, ps: seq<Patch>): (r: seq<byte>)
    requires Fit(ps, |img|)
    ensures |r| == |img|
  {
    if ps == [] then img else
      var last := |ps| - 1;
      Apply(ApplyAll(img, ps[..last]), ps[last])
  }

  lemma {:induction false} ApplyConcat(img: seq<byte>, ps: seq<Patch>, qs: seq<Patch>)
    requires Fit(ps, |img|) && Fit(qs, |img|)
    ensures Fit(ps + qs, |img|) && ApplyAll(img, ps + qs) == ApplyAll(ApplyAll(img, ps), qs)
  {
    if qs == [] {
      assert ps + qs == ps;
    } else {
      var last := |qs| - 1;
      ApplyConcat(img, ps, qs[..last]);
      assert (ps + qs)[..|ps + qs| - 1] == ps + qs[..last];
    }
  }

  /** The last of the patches that covers `a`, or -1. */
  function LastCovering(ps: seq<Patch>, a: nat): (k: int)
    ensures -1 <= k < |ps|
    ensures k >= 0 ==> ps[k].Covers(a)
    ensures forall j :: k < j < |ps| ==> !ps[j].Covers(a)
  {
    if ps == [] then -1
    else if ps[|ps| - 1].Covers(a) then |ps| - 1
    else LastCovering(ps[..|ps| - 1], a)
  }

  lemma {:induction false} LastWins(img: seq<byte>, ps: seq<Patch>, a: nat)
    requires Fit(ps, |img|) && a < |img|
    ensures ApplyAll(img, ps)[a] ==
            var k := LastCovering(ps, a); if k >= 0 then ps[k].data[a - ps[k].at] else img[a]
  {
    if ps == [] {
    } else {
      LastWins(img, ps[..|ps| - 1], a);
    }
  }

  lemma {:induction false} LastCoveringConcat(ps: seq<Patch>, qs: seq<Patch>, a: nat)
    ensures LastCovering(ps + qs, a) == var k := LastCovering(qs, a); if k >= 0 then |ps| + k else LastCovering(ps, a)
  {
    if qs == [] {
      assert ps + qs == ps;
    } else {
      assert (ps + qs)[..|ps + qs| - 1] == ps + qs[..|qs| - 1];
      LastCoveringConcat(ps, qs[..|qs| - 1], a);
    }
  }

  lemma LastCoveringOne(p: Patch, a: nat)
    ensures LastCovering([p], a) == if p.Covers(a) then 0 else -1
  {
    assert [p][..0] == [];
  }

  lemma SomeCovering(ps: seq<Patch>, a: nat, p: Patch)
    requires p in ps && p.Covers(a)
    ensures LastCovering(ps, a) >= 0
  {
  }
}
