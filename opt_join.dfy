/** The accumulator join: merges repeated occurrences of one descriptor. */
module OptJoin {
  import opened OptTypes

  /** The last entry of u that refers to descriptor d (the inner loop of
      join keeps overwriting u, so it ends on the last match). */
  function LastIndexOf(u: seq<Opt>, d: nat): (r: Option<nat>)
    ensures r.Some? ==> r.value < |u| && u[r.value].desc == d
    ensures r.Some? ==> forall j :: r.value < j < |u| ==> u[j].desc != d
    ensures r.None? ==> forall j :: 0 <= j < |u| ==> u[j].desc != d
  {
    if |u| == 0 then None
    else if u[|u| - 1].desc == d then Some(|u| - 1)
    else LastIndexOf(u[..|u| - 1], d)
  }

  /** One step of join: occurrence o merged into the options u gathered so far. */
  function Merge(descs: seq<Desc>, u: seq<Opt>, o: Opt): seq<Opt>
    requires o.desc < |descs|
  {
    match LastIndexOf(u, o.desc)
    case Some(k) =>
      if TakesArg(descs[u[k].desc]) then u[k := u[k].(args := u[k].args + o.args)] else u
    case None => u + [o]
  }

  /** What one step of join does: an occurrence of a descriptor not yet
      merged is appended; otherwise the last entry with that descriptor
      gains its values when it takes an argument, and nothing else changes. */
  lemma MergeEffect(descs: seq<Desc>, u: seq<Opt>, o: Opt)
    requires o.desc < |descs|
    ensures (forall j :: 0 <= j < |u| ==> u[j].desc != o.desc) ==> Merge(descs, u, o) == u + [o]
    ensures forall k :: 0 <= k < |u| && u[k].desc == o.desc && (forall j :: k < j < |u| ==> u[j].desc != o.desc) ==>
      var r := Merge(descs, u, o);
      |r| == |u| && r[k] == Opt(o.desc, u[k].args + if TakesArg(descs[o.desc]) then o.args else []) &&
      forall j :: 0 <= j < |u| && j != k ==> r[j] == u[j]
  {
  }

  /** join, as a left fold of Merge over the occurrences. */
  function JoinSpec(descs: seq<Desc>, occs: seq<Opt>): seq<Opt>
    requires ValidOpts(descs, occs)
  {
    if |occs| == 0 then [] else Merge(descs, JoinSpec(descs, occs[..|occs| - 1]), occs[|occs| - 1])
  }

  method Join(descs: seq<Desc>, opts: seq<Opt>) returns (uopts: seq<Opt>)
    requires ValidOpts(descs, opts)
    ensures uopts == JoinSpec(descs, opts)
  {
    uopts := [];
    for k := 0 to |opts|
      invariant uopts == JoinSpec(descs, opts[..k])
    {
      var o := opts[k];
      var u: Option<nat> := None;
      for j := 0 to |uopts|
        invariant u == LastIndexOf(uopts[..j], o.desc)
      {
        if uopts[j].desc == o.desc {
          u := Some(j);
        }
        assert uopts[..j + 1][..j] == uopts[..j];
      }
      assert uopts[..|uopts|] == uopts;
      if u.Some? {
        if TakesArg(descs[uopts[u.value].desc]) {
          uopts := uopts[u.value := uopts[u.value].(args := uopts[u.value].args + o.args)];
        }
      } else {
        uopts := uopts + [o];
      }
      assert opts[..k + 1][..k] == opts[..k];
    }
    assert opts[..|opts|] == opts;
  }

  // An independent description of the result.

  /** Position of the first occurrence of descriptor d, or |occs| if d does not occur. */
  function FirstIndex(occs: seq<Opt>, d: nat): (r: nat)
    ensures r <= |occs|
    ensures r < |occs| ==> occs[r].desc == d
  {
    if |occs| == 0 then 0
    else if occs[0].desc == d then 0
    else 1 + FirstIndex(occs[1..], d)
  }

  predicate Occurs(occs: seq<Opt>, d: nat) {
    FirstIndex(occs, d) < |occs|
  }

  /** No occurrence of d comes before FirstIndex(occs, d). */
  lemma {:induction false} FirstIndexMin(occs: seq<Opt>, d: nat, j: nat)
    requires j < FirstIndex(occs, d)
    ensures j < |occs| && occs[j].desc != d
  {
    if j > 0 {
      FirstIndexMin(occs[1..], d, j - 1);
    }
  }

  /** An occurrence at j means d occurs, first at j or earlier. */
  lemma {:induction false} OccursAt(occs: seq<Opt>, d: nat, j: nat)
    requires j < |occs| && occs[j].desc == d
    ensures FirstIndex(occs, d) <= j
  {
    if occs[0].desc != d {
      OccursAt(occs[1..], d, j - 1);
    }
  }

  /** First occurrences in occs + [o]. */
  lemma {:induction false} FirstIndexSnoc(occs: seq<Opt>, o: Opt, d: nat)
    ensures FirstIndex(occs + [o], d) ==
      if Occurs(occs, d) then FirstIndex(occs, d) else if o.desc == d then |occs| else |occs| + 1
  {
    if |occs| > 0 {
      assert (occs + [o])[1..] == occs[1..] + [o];
      FirstIndexSnoc(occs[1..], o, d);
    }
  }

  /** Two option lists with the same descriptors position by position. */
  lemma {:induction false} FirstIndexSameDescs(J: seq<Opt>, M: seq<Opt>, d: nat)
    requires |J| == |M| && forall i :: 0 <= i < |J| ==> M[i].desc == J[i].desc
    ensures FirstIndex(M, d) == FirstIndex(J, d)
  {
    if |J| > 0 && J[0].desc != d {
      FirstIndexSameDescs(J[1..], M[1..], d);
    }
  }

  /** The values of all occurrences of d, concatenated in input order. */
  function AllArgs(occs: seq<Opt>, d: nat): seq<Val> {
    if |occs| == 0 then []
    else AllArgs(occs[..|occs| - 1], d) + (if occs[|occs| - 1].desc == d then occs[|occs| - 1].args else [])
  }

  lemma AllArgsSnoc(p: seq<Opt>, o: Opt, d: nat)
    ensures AllArgs(p + [o], d) == AllArgs(p, d) + (if o.desc == d then o.args else [])
  {
    assert (p + [o])[..|p|] == p;
  }

  lemma {:induction false} AllArgsAbsent(p: seq<Opt>, d: nat)
    requires !Occurs(p, d)
    ensures AllArgs(p, d) == []
  {
    if |p| > 0 {
      var q, x := p[..|p| - 1], p[|p| - 1];
      assert p == q + [x];
      FirstIndexSnoc(q, x, d);
      AllArgsAbsent(q, d);
    }
  }

  /** The values the merged entry of an occurring descriptor d carries: all
      values in input order, or for a no-argument option those of its first
      occurrence. */
  function Expected(descs: seq<Desc>, occs: seq<Opt>, d: nat): seq<Val>
    requires d < |descs| && Occurs(occs, d)
  {
    if TakesArg(descs[d]) then AllArgs(occs, d) else occs[FirstIndex(occs, d)].args
  }

  /** What appending o does to the values expected for a descriptor occurring in p. */
  lemma ExpectedSnoc(descs: seq<Desc>, p: seq<Opt>, o: Opt, d: nat)
    requires d < |descs| && Occurs(p, d)
    ensures Occurs(p + [o], d) && FirstIndex(p + [o], d) == FirstIndex(p, d)
    ensures Expected(descs, p + [o], d) ==
      Expected(descs, p, d) + (if o.desc == d && TakesArg(descs[d]) then o.args else [])
  {
    FirstIndexSnoc(p, o, d);
    AllArgsSnoc(p, o, d);
    var f := FirstIndex(p, d);
    assert (p + [o])[f] == p[f];
  }

  /** Each descriptor at most once. */
  predicate Distinct(J: seq<Opt>) {
    forall i, j :: 0 <= i < j < |J| ==> J[i].desc != J[j].desc
  }

  /** Exactly the descriptors that occur. */
  predicate Covers(occs: seq<Opt>, J: seq<Opt>) {
    (forall i :: 0 <= i < |J| ==> Occurs(occs, J[i].desc)) &&
    (forall k :: 0 <= k < |occs| ==> Occurs(J, occs[k].desc))
  }

  /** In order of first occurrence. */
  predicate FirstSeenOrder(occs: seq<Opt>, J: seq<Opt>) {
    forall i, j :: 0 <= i < j < |J| ==> FirstIndex(occs, J[i].desc) < FirstIndex(occs, J[j].desc)
  }

  /** Every entry carries the values expected for its descriptor. */
  predicate Accumulated(descs: seq<Desc>, occs: seq<Opt>, J: seq<Opt>)
    requires ValidOpts(descs, J)
    requires forall i :: 0 <= i < |J| ==> Occurs(occs, J[i].desc)
  {
    forall i :: 0 <= i < |J| ==> J[i].args == Expected(descs, occs, J[i].desc)
  }

  /** What join promises of its result J for the occurrences occs. */
  predicate Joined(descs: seq<Desc>, occs: seq<Opt>, J: seq<Opt>) {
    ValidOpts(descs, J) && Distinct(J) && Covers(occs, J) &&
    FirstSeenOrder(occs, J) && Accumulated(descs, occs, J)
  }

  /** Merge of a descriptor already present changes the values of that entry only. */
  lemma ExistingShape(descs: seq<Desc>, J: seq<Opt>, o: Opt, k: nat)
    requires o.desc < |descs|
    requires LastIndexOf(J, o.desc) == Some(k)
    ensures var M := Merge(descs, J, o);
      |M| == |J| && k < |J| && J[k].desc == o.desc &&
      (forall i :: 0 <= i < |M| ==> M[i].desc == J[i].desc) &&
      (forall i :: 0 <= i < |M| && i != k ==> M[i] == J[i]) &&
      M[k].args == if TakesArg(descs[o.desc]) then J[k].args + o.args else J[k].args
  {
  }

  /** The entries after merging o into the entry k of J that has its descriptor. */
  lemma ExistingEntries(descs: seq<Desc>, p: seq<Opt>, o: Opt, J: seq<Opt>, k: nat, M: seq<Opt>)
    requires o.desc < |descs| && ValidOpts(descs, J)
    requires forall i :: 0 <= i < |J| ==> Occurs(p, J[i].desc)
    requires FirstSeenOrder(p, J)
    requires Accumulated(descs, p, J)
    requires |M| == |J| && k < |J| && J[k].desc == o.desc
    requires forall i :: 0 <= i < |M| ==> M[i].desc == J[i].desc
    requires forall i :: 0 <= i < |M| && i != k ==> M[i] == J[i]
    requires Distinct(J)
    requires M[k].args == if TakesArg(descs[o.desc]) then J[k].args + o.args else J[k].args
    ensures forall i :: 0 <= i < |M| ==> Occurs(p + [o], M[i].desc)
    ensures FirstSeenOrder(p + [o], M)
    ensures Accumulated(descs, p + [o], M)
  {
    var q := p + [o];
    forall i | 0 <= i < |M|
      ensures Occurs(q, M[i].desc) && FirstIndex(q, M[i].desc) == FirstIndex(p, J[i].desc)
      ensures M[i].args == Expected(descs, q, M[i].desc)
    {
      ExpectedSnoc(descs, p, o, J[i].desc);
    }
  }

  /** Merging an occurrence of a descriptor already present. */
  lemma MergeExisting(descs: seq<Desc>, p: seq<Opt>, o: Opt, J: seq<Opt>, k: nat)
    requires o.desc < |descs| && ValidOpts(descs, p)
    requires Joined(descs, p, J)
    requires LastIndexOf(J, o.desc) == Some(k)
    ensures Joined(descs, p + [o], Merge(descs, J, o))
  {
    var q := p + [o];
    var M := Merge(descs, J, o);
    ExistingShape(descs, J, o, k);
    ExistingEntries(descs, p, o, J, k, M);
    forall kk | 0 <= kk < |q| ensures Occurs(M, q[kk].desc) {
      FirstIndexSameDescs(J, M, q[kk].desc);
      if kk < |p| {
        assert q[kk] == p[kk];
      } else {
        OccursAt(J, o.desc, k);
      }
    }
  }

  /** The entries of J after a first occurrence o is appended to p. */
  lemma NewEntries(descs: seq<Desc>, p: seq<Opt>, o: Opt, J: seq<Opt>)
    requires o.desc < |descs| && ValidOpts(descs, J) && !Occurs(p, o.desc)
    requires forall i :: 0 <= i < |J| ==> Occurs(p, J[i].desc)
    requires FirstSeenOrder(p, J)
    requires Accumulated(descs, p, J)
    ensures forall i :: 0 <= i < |J + [o]| ==> Occurs(p + [o], (J + [o])[i].desc)
    ensures FirstSeenOrder(p + [o], J + [o])
    ensures Accumulated(descs, p + [o], J + [o])
  {
    var q, M := p + [o], J + [o];
    FirstIndexSnoc(p, o, o.desc);
    AllArgsSnoc(p, o, o.desc);
    AllArgsAbsent(p, o.desc);
    forall i | 0 <= i < |M|
      ensures Occurs(q, M[i].desc)
      ensures FirstIndex(q, M[i].desc) == if i < |J| then FirstIndex(p, J[i].desc) else |p|
      ensures M[i].args == Expected(descs, q, M[i].desc)
    {
      if i < |J| {
        assert M[i] == J[i];
        ExpectedSnoc(descs, p, o, J[i].desc);
      } else {
        assert M[i] == o;
      }
    }
  }

  /** Every descriptor occurring in p + [o] has an entry in J + [o]. */
  lemma NewCovers(p: seq<Opt>, o: Opt, J: seq<Opt>)
    requires forall k :: 0 <= k < |p| ==> Occurs(J, p[k].desc)
    ensures forall k :: 0 <= k < |p + [o]| ==> Occurs(J + [o], (p + [o])[k].desc)
  {
    var q := p + [o];
    forall kk | 0 <= kk < |q| ensures Occurs(J + [o], q[kk].desc) {
      FirstIndexSnoc(J, o, q[kk].desc);
      if kk < |p| {
        assert q[kk] == p[kk];
      }
    }
  }

  /** Merging the first occurrence of a descriptor. */
  lemma MergeNew(descs: seq<Desc>, p: seq<Opt>, o: Opt, J: seq<Opt>)
    requires o.desc < |descs| && ValidOpts(descs, p)
    requires Joined(descs, p, J)
    requires LastIndexOf(J, o.desc) == None
    ensures Joined(descs, p + [o], Merge(descs, J, o))
  {
    assert Merge(descs, J, o) == J + [o];
    assert !Occurs(J, o.desc);
    assert !Occurs(p, o.desc) by {
      forall kk | 0 <= kk < |p| ensures p[kk].desc != o.desc {
        assert Occurs(J, p[kk].desc);
      }
    }
    NewEntries(descs, p, o, J);
    NewCovers(p, o, J);
  }

  /** join keeps each descriptor once, in order of first occurrence, with
      the values of all its occurrences in input order. */
  lemma {:induction false} JoinCorrect(descs: seq<Desc>, occs: seq<Opt>)
    requires ValidOpts(descs, occs)
    ensures Joined(descs, occs, JoinSpec(descs, occs))
  {
    if |occs| > 0 {
      var p := occs[..|occs| - 1];
      var o := occs[|occs| - 1];
      assert occs == p + [o];
      JoinCorrect(descs, p);
      var J := JoinSpec(descs, p);
      match LastIndexOf(J, o.desc)
      case Some(k) => MergeExisting(descs, p, o, J, k);
      case None => MergeNew(descs, p, o, J);
    }
  }
}
