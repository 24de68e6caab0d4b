/** What the parser promises, proved about its specification functions. */
module ParseProperties {
  import opened OptTypes
  import opened Strconv
  import opened OptJoin
  import opened OptParse

  // ---- The merged options ----

  /** Parse returns the scan's positionals, and its options are the scan's
      occurrences merged: each descriptor once, in order of first occurrence,
      an argument-taking one with the values of all its occurrences in input
      order, a no-argument one with no values however often it was given. */
  lemma ParseMerges(descs: seq<Desc>, args: seq<string>)
    requires ParseSpec(descs, args).Ok?
    ensures Scan(descs, args).Ok?
    ensures var occs := Scan(descs, args).value.0;
            var J := ParseSpec(descs, args).value.0;
      ParseSpec(descs, args).value.1 == Scan(descs, args).value.1 &&
      Joined(descs, occs, J) &&
      forall i :: 0 <= i < |J| ==>
        J[i].args == if TakesArg(descs[J[i].desc]) then AllArgs(occs, J[i].desc) else []
  {
    var occs := Scan(descs, args).value.0;
    ScanShaped(descs, args);
    JoinCorrect(descs, occs);
    var J := JoinSpec(descs, occs);
    forall i | 0 <= i < |J| && !TakesArg(descs[J[i].desc]) ensures J[i].args == [] {
      var f := FirstIndex(occs, J[i].desc);
      assert occs[f].desc == J[i].desc;
    }
  }

  // ---- Positionals, the end marker and aborts ----

  /** pre scans on its own, to its end: the scan meets no "--" in it, and
      every dashed token it meets resolves with the tokens of pre alone
      (an argument-taking option at its end does not reach past it). */
  predicate Whole(descs: seq<Desc>, pre: seq<string>)
    decreases |pre|
  {
    |pre| == 0 ||
    (pre[0] != "--" &&
     if HasDashPrefix(pre[0]) then
       Dashed(descs, pre).Ok? && Whole(descs, pre[Dashed(descs, pre).value.1..])
     else Whole(descs, pre[1..]))
  }

  /** A cluster that succeeds reads no further than the first token after it. */
  lemma {:induction false} ClusterAppend(descs: seq<Desc>, c: string, i: nat, next: seq<string>, more: seq<string>)
    requires i <= |c| && Cluster(descs, c, i, next).Ok?
    decreases |c| - i
    ensures Cluster(descs, c, i, next + more) == Cluster(descs, c, i, next)
  {
    if i < |c| {
      var d := FindDesc(descs, [c[i]]).value;
      if TakesArg(descs[d]) {
        if i == |c| - 1 {
          assert (next + more)[0] == next[0];
        }
      } else {
        ClusterAppend(descs, c, i + 1, next, more);
      }
    }
  }

  /** A dashed token that succeeds gives the same result whatever comes
      after the tokens it consumed. */
  lemma DashedAppend(descs: seq<Desc>, pre: seq<string>, post: seq<string>)
    requires |pre| > 0 && Dashed(descs, pre).Ok?
    ensures Dashed(descs, pre + post) == Dashed(descs, pre)
  {
    var a := pre[0];
    assert (pre + post)[0] == a;
    if DashCount(a) == 1 {
      assert (pre + post)[1..] == pre[1..] + post;
      ClusterAppend(descs, a[1..], 0, pre[1..], post);
    } else if DashCount(a) == 2 && |pre| >= 2 {
      assert (pre + post)[1] == pre[1];
    }
  }

  /** One step of the scan at a dashed token. */
  lemma ScanDashedStep(descs: seq<Desc>, a: seq<string>, os: seq<Opt>, n: nat)
    requires |a| > 0 && a[0] != "--" && HasDashPrefix(a[0]) && Dashed(descs, a) == Ok((os, n))
    ensures Scan(descs, a) == Extend(os, [], Scan(descs, a[n..]))
  {
    if Scan(descs, a[n..]).Ok? {
      assert [] + Scan(descs, a[n..]).value.1 == Scan(descs, a[n..]).value.1;
    }
  }

  /** One step of the scan at a positional. */
  lemma ScanPlainStep(descs: seq<Desc>, a: seq<string>)
    requires |a| > 0 && a[0] != "--" && !HasDashPrefix(a[0])
    ensures Scan(descs, a) == Extend([], [a[0]], Scan(descs, a[1..]))
  {
    if Scan(descs, a[1..]).Ok? {
      assert [] + Scan(descs, a[1..]).value.0 == Scan(descs, a[1..]).value.0;
    }
  }

  lemma ExtendTwice(o1: seq<Opt>, p1: seq<string>, o2: seq<Opt>, p2: seq<string>, r: Result<(seq<Opt>, seq<string>)>)
    ensures Extend(o1, p1, Extend(o2, p2, r)) == Extend(o1 + o2, p1 + p2, r)
  {
    if r.Ok? {
      assert o1 + (o2 + r.value.0) == (o1 + o2) + r.value.0;
      assert p1 + (p2 + r.value.1) == (p1 + p2) + r.value.1;
    }
  }

  /** Scanning is compositional: a prefix that scans on its own contributes
      its options and its positionals, in order, in front of what the rest
      yields, errors included. Options and positionals may be interleaved
      in the prefix in any way. */
  lemma {:induction false} ScanPrefix(descs: seq<Desc>, pre: seq<string>, post: seq<string>)
    requires Whole(descs, pre)
    decreases |pre|
    ensures Scan(descs, pre).Ok?
    ensures Scan(descs, pre + post) == Extend(Scan(descs, pre).value.0, Scan(descs, pre).value.1, Scan(descs, post))
  {
    if |pre| == 0 {
      assert pre + post == post;
      ExtendNil(Scan(descs, post));
    } else {
      var a := pre + post;
      assert a[0] == pre[0];
      var m: nat, o1: seq<Opt>, p1: seq<string>;
      if HasDashPrefix(pre[0]) {
        var (os, n) := Dashed(descs, pre).value;
        DashedAppend(descs, pre, post);
        ScanDashedStep(descs, pre, os, n);
        ScanDashedStep(descs, a, os, n);
        m, o1, p1 := n, os, [];
      } else {
        ScanPlainStep(descs, pre);
        ScanPlainStep(descs, a);
        m, o1, p1 := 1, [], [pre[0]];
      }
      assert a[m..] == pre[m..] + post;
      ScanPrefix(descs, pre[m..], post);
      var r := Scan(descs, pre[m..]).value;
      ExtendTwice(o1, p1, r.0, r.1, Scan(descs, post));
    }
  }

  /** After a prefix that scans on its own, "--" ends option processing:
      every later token is a positional, verbatim even when it starts with
      a dash, and the marker itself is in neither output. */
  lemma ScanEndMarker(descs: seq<Desc>, pre: seq<string>, post: seq<string>)
    requires Whole(descs, pre)
    ensures Scan(descs, pre).Ok?
    ensures Scan(descs, pre + ["--"] + post) == Ok((Scan(descs, pre).value.0, Scan(descs, pre).value.1 + post))
  {
    var tail := ["--"] + post;
    assert pre + ["--"] + post == pre + tail;
    ScanPrefix(descs, pre, tail);
    assert tail[0] == "--" && tail[1..] == post;
    assert Scan(descs, tail) == Ok(([], post));
    var os := Scan(descs, pre).value.0;
    assert os + [] == os;
  }

  /** The first dashed token that fails, after a prefix that scans on its
      own, makes the whole parse fail with its error: there is no partial
      result. */
  lemma ParseAborts(descs: seq<Desc>, pre: seq<string>, post: seq<string>, e: Error)
    requires Whole(descs, pre)
    requires |post| > 0 && post[0] != "--" && HasDashPrefix(post[0])
    requires Dashed(descs, post) == Err(e)
    ensures ParseSpec(descs, pre + post) == Err(e)
  {
    ScanPrefix(descs, pre, post);
  }

  // ---- Short clusters ----

  /** The characters c[i..] resolve, one by one, to the descriptors of os. */
  predicate Resolved(descs: seq<Desc>, c: string, i: nat, os: seq<Opt>) {
    1 <= |os| && i + |os| <= |c| &&
    forall j :: 0 <= j < |os| ==> FindDesc(descs, [c[i + j]]) == Some(os[j].desc)
  }

  /** Every occurrence but the last is of a no-argument option. */
  predicate NoArgsBeforeLast(descs: seq<Desc>, os: seq<Opt>) {
    forall j :: 0 <= j < |os| - 1 ==> os[j].desc < |descs| && !TakesArg(descs[os[j].desc]) && os[j].args == []
  }

  /** How the cluster c[i..] ends, at its last occurrence: a no-argument
      option at the last character, or an argument-taking one that takes
      the rest of the cluster, or the next token when nothing is left. */
  predicate ClusterEnd(descs: seq<Desc>, c: string, i: nat, next: seq<string>, os: seq<Opt>, n: nat)
    requires Resolved(descs, c, i, os) && Shaped(descs, os)
  {
    LastEnds(descs, c, i + |os| - 1, next, os[|os| - 1], n)
  }

  /** The last occurrence o, from the character at position p. */
  predicate LastEnds(descs: seq<Desc>, c: string, p: nat, next: seq<string>, o: Opt, n: nat)
    requires p < |c| && o.desc < |descs| && (TakesArg(descs[o.desc]) ==> |o.args| == 1)
  {
    if !TakesArg(descs[o.desc]) then p + 1 == |c| && n == 1
    else if p == |c| - 1 then
      n == 2 && |next| > 0 && ParseArg([c[p]], descs[o.desc].arg, next[0]) == Ok(Some(o.args[0]))
    else
      n == 1 && ParseArg([c[p]], descs[o.desc].arg, c[p + 1..]) == Ok(Some(o.args[0]))
  }

  lemma {:induction false} ConsResolved(descs: seq<Desc>, c: string, i: nat, d: nat, rs: seq<Opt>)
    requires i < |c| && FindDesc(descs, [c[i]]) == Some(d)
    requires Resolved(descs, c, i + 1, rs)
    ensures Resolved(descs, c, i, [Opt(d, [])] + rs)
  {
    var os := [Opt(d, [])] + rs;
    forall j | 0 <= j < |os| ensures FindDesc(descs, [c[i + j]]) == Some(os[j].desc) {
      if j > 0 {
        assert os[j] == rs[j - 1];
        assert i + j == (i + 1) + (j - 1);
      }
    }
  }

  lemma {:induction false} ConsNoArgs(descs: seq<Desc>, d: nat, rs: seq<Opt>)
    requires d < |descs| && !TakesArg(descs[d])
    requires |rs| > 0 && NoArgsBeforeLast(descs, rs)
    ensures NoArgsBeforeLast(descs, [Opt(d, [])] + rs)
  {
    var os := [Opt(d, [])] + rs;
    forall j | 0 <= j < |os| - 1
      ensures os[j].desc < |descs| && !TakesArg(descs[os[j].desc]) && os[j].args == []
    {
      if j > 0 {
        assert os[j] == rs[j - 1];
      }
    }
  }

  lemma {:induction false} ConsOutcome(descs: seq<Desc>, c: string, i: nat, next: seq<string>, d: nat, rs: seq<Opt>, n: nat)
    requires i < |c| && FindDesc(descs, [c[i]]) == Some(d) && d < |descs| && !TakesArg(descs[d])
    requires Resolved(descs, c, i + 1, rs) && Shaped(descs, rs)
    requires NoArgsBeforeLast(descs, rs) && ClusterEnd(descs, c, i + 1, next, rs, n)
    ensures Resolved(descs, c, i, [Opt(d, [])] + rs) && Shaped(descs, [Opt(d, [])] + rs)
    ensures NoArgsBeforeLast(descs, [Opt(d, [])] + rs) && ClusterEnd(descs, c, i, next, [Opt(d, [])] + rs, n)
  {
    ConsResolved(descs, c, i, d, rs);
    ConsNoArgs(descs, d, rs);
    ShapedConcat(descs, [Opt(d, [])], rs);
    ConsEnd(descs, c, i, next, d, rs, n);
  }

  lemma ConsEnd(descs: seq<Desc>, c: string, i: nat, next: seq<string>, d: nat, rs: seq<Opt>, n: nat)
    requires i < |c| && d < |descs| && !TakesArg(descs[d])
    requires Resolved(descs, c, i + 1, rs) && Shaped(descs, rs) && ClusterEnd(descs, c, i + 1, next, rs, n)
    requires Resolved(descs, c, i, [Opt(d, [])] + rs) && Shaped(descs, [Opt(d, [])] + rs)
    ensures ClusterEnd(descs, c, i, next, [Opt(d, [])] + rs, n)
  {
    var os := [Opt(d, [])] + rs;
    assert os[|os| - 1] == rs[|rs| - 1];
    assert i + |os| - 1 == (i + 1) + |rs| - 1;
  }

  /** A successful cluster, from position i: left to right, every
      no-argument character gives one occurrence without values; the first
      argument-taking character ends the cluster and takes the rest of it
      as its value, or the next token (consuming it) when it is last. */
  lemma {:induction false} ClusterShape(descs: seq<Desc>, c: string, i: nat, next: seq<string>, os: seq<Opt>, n: nat)
    requires i < |c|
    requires Cluster(descs, c, i, next) == Ok((os, n))
    decreases |c| - i
    ensures Resolved(descs, c, i, os) && Shaped(descs, os)
    ensures NoArgsBeforeLast(descs, os) && ClusterEnd(descs, c, i, next, os, n)
  {
    var d := FindDesc(descs, [c[i]]).value;
    if !TakesArg(descs[d]) {
      if i + 1 == |c| {
        assert os == [Opt(d, [])] && n == 1;
      } else {
        var (rs, rn) := Cluster(descs, c, i + 1, next).value;
        assert os == [Opt(d, [])] + rs && n == rn;
        ClusterShape(descs, c, i + 1, next, rs, rn);
        ConsOutcome(descs, c, i, next, d, rs, rn);
      }
    }
  }

  /** The short form "-cluster". */
  lemma ShortForm(descs: seq<Desc>, args: seq<string>, os: seq<Opt>, n: nat)
    requires |args| > 0 && DashCount(args[0]) == 1 && |args[0]| > 1
    requires Dashed(descs, args) == Ok((os, n))
    ensures Resolved(descs, args[0][1..], 0, os) && Shaped(descs, os)
    ensures NoArgsBeforeLast(descs, os) && ClusterEnd(descs, args[0][1..], 0, args[1..], os, n)
  {
    ClusterShape(descs, args[0][1..], 0, args[1..], os, n);
  }

  // ---- Long options ----

  lemma {:induction false} SplitEqAt(name: string, v: string)
    requires '=' !in name
    ensures SplitEq(name + "=" + v) == (name, Some(v))
  {
    if |name| > 0 {
      assert (name + "=" + v)[1..] == name[1..] + "=" + v;
      SplitEqAt(name[1..], v);
      assert [name[0]] + name[1..] == name;
    }
  }

  lemma {:induction false} SplitEqNone(name: string)
    requires '=' !in name
    ensures SplitEq(name) == (name, None)
  {
    if |name| > 0 {
      SplitEqNone(name[1..]);
      assert [name[0]] + name[1..] == name;
    }
  }

  /** The long form "--name" or "--name=value": the text is split at its
      first '='; an argument-taking option takes the value after it, or else
      the next token, which is then consumed; a no-argument option admits no
      '='. Exactly one occurrence is produced. */
  lemma LongForm(descs: seq<Desc>, args: seq<string>, os: seq<Opt>, n: nat)
    requires |args| > 0 && DashCount(args[0]) == 2
    requires Dashed(descs, args) == Ok((os, n))
    ensures var (name, val) := SplitEq(args[0][2..]);
      |os| == 1 && FindDesc(descs, name) == Some(os[0].desc) &&
      (n == 2 <==> TakesArg(descs[os[0].desc]) && val.None?) &&
      (!TakesArg(descs[os[0].desc]) ==> val.None? && os[0].args == []) &&
      (TakesArg(descs[os[0].desc]) ==>
         |os[0].args| == 1 &&
         ParseArg(name, descs[os[0].desc].arg, if val.Some? then val.value else args[1]) == Ok(Some(os[0].args[0])))
  {
    var (name, val) := SplitEq(args[0][2..]);
    var d := FindDesc(descs, name).value;
    if TakesArg(descs[d]) {
      var v := if val.Some? then val.value else args[1];
      assert Dashed(descs, args) == Single(d, ParseArg(name, descs[d].arg, v), n);
    }
  }

  lemma DashCountLong(name: string)
    requires !HasDashPrefix(name)
    ensures DashCount("--" + name) == 2
  {
    assert ("--" + name)[1..] == "-" + name;
    assert ("-" + name)[1..] == name;
  }

  /** Two command lines whose dashed first tokens give the same single
      occurrence, one consuming one token and the other two, before the
      same remaining tokens, scan alike. */
  lemma ScanSameValue(descs: seq<Desc>, a1: seq<string>, a2: seq<string>, d: nat, v: Result<Option<Val>>)
    requires |a1| > 0 && |a2| > 1 && a1[1..] == a2[2..]
    requires a1[0] != "--" && HasDashPrefix(a1[0]) && a2[0] != "--" && HasDashPrefix(a2[0])
    requires v.Ok? ==> v.value.Some?
    requires Dashed(descs, a1) == Single(d, v, 1) && Dashed(descs, a2) == Single(d, v, 2)
    ensures Scan(descs, a1) == Scan(descs, a2)
  {
  }

  /** A token "--body" goes to the long form. */
  lemma DashedLong(descs: seq<Desc>, a: seq<string>, body: string)
    requires |a| > 0 && a[0] == "--" + body && !HasDashPrefix(body)
    ensures Dashed(descs, a) == Long(descs, body, a)
  {
    DashCountLong(body);
    assert a[0][2..] == body;
  }

  /** A token "-body" goes to the cluster of the characters of body. */
  lemma DashedShort(descs: seq<Desc>, a: seq<string>, body: string)
    requires |a| > 0 && a[0] == "-" + body && |body| > 0 && !HasDashPrefix(body)
    ensures Dashed(descs, a) == Cluster(descs, body, 0, a[1..])
  {
    assert a[0][1..] == body;
    assert a[0][1] == body[0];
  }

  lemma LongAttachedValue(descs: seq<Desc>, body: string, args: seq<string>, name: string, v: string, d: nat)
    requires |args| > 0 && SplitEq(body) == (name, Some(v))
    requires FindDesc(descs, name) == Some(d) && TakesArg(descs[d])
    ensures Long(descs, body, args) == Single(d, ParseArg(name, descs[d].arg, v), 1)
  {
  }

  lemma LongNextValue(descs: seq<Desc>, body: string, args: seq<string>, d: nat)
    requires |args| > 1 && SplitEq(body) == (body, None)
    requires FindDesc(descs, body) == Some(d) && TakesArg(descs[d])
    ensures Long(descs, body, args) == Single(d, ParseArg(body, descs[d].arg, args[1]), 2)
  {
  }

  /** For an argument-taking option, "--name=value" and "--name value" parse alike. */
  lemma LongEqualsOrSpace(descs: seq<Desc>, name: string, v: string, rest: seq<string>)
    requires |name| > 0 && '=' !in name && !HasDashPrefix(name)
    requires FindDesc(descs, name).Some? && TakesArg(descs[FindDesc(descs, name).value])
    ensures Scan(descs, ["--" + name + "=" + v] + rest) == Scan(descs, ["--" + name, v] + rest)
  {
    var a1, a2 := ["--" + name + "=" + v] + rest, ["--" + name, v] + rest;
    var d := FindDesc(descs, name).value;
    var body := name + "=" + v;
    assert a1[0] == "--" + body;
    assert body[0] == name[0];
    DashedLong(descs, a1, body);
    SplitEqAt(name, v);
    LongAttachedValue(descs, body, a1, name, v, d);
    DashedLong(descs, a2, name);
    SplitEqNone(name);
    LongNextValue(descs, name, a2, d);
    assert a2[1] == v;
    assert a1[1..] == rest && a2[2..] == rest;
    assert a1[0][0] == '-' && a2[0][0] == '-';
    assert a1[0][2] == name[0] && a2[0][2] == name[0];
    ScanSameValue(descs, a1, a2, d, ParseArg(name, descs[d].arg, v));
  }

  /** For an argument-taking short option c, "-cvalue" and "-c value" parse alike. */
  lemma ShortAttachedOrSpace(descs: seq<Desc>, c: char, v: string, rest: seq<string>)
    requires c != '-' && |v| > 0
    requires FindDesc(descs, [c]).Some? && TakesArg(descs[FindDesc(descs, [c]).value])
    ensures Scan(descs, ["-" + [c] + v] + rest) == Scan(descs, ["-" + [c], v] + rest)
  {
    var a1, a2 := ["-" + [c] + v] + rest, ["-" + [c], v] + rest;
    var d := FindDesc(descs, [c]).value;
    assert a1[0] == "-" + ([c] + v);
    DashedShort(descs, a1, [c] + v);
    assert ([c] + v)[0] == c && ([c] + v)[1..] == v;
    assert Cluster(descs, [c] + v, 0, a1[1..]) == Single(d, ParseArg([c], descs[d].arg, v), 1);
    DashedShort(descs, a2, [c]);
    assert a2[1..][0] == v;
    assert Cluster(descs, [c], 0, a2[1..]) == Single(d, ParseArg([c], descs[d].arg, v), 2);
    assert a1[1..] == rest && a2[2..] == rest;
    assert a1[0][0] == '-' && a2[0][0] == '-';
    assert a1[0][1] == c && a2[0][1] == c;
    ScanSameValue(descs, a1, a2, d, ParseArg([c], descs[d].arg, v));
  }

  // ---- Errors ----

  /** The malformed tokens: a bare "-" and three or more leading dashes. */
  lemma MalformedTokens(descs: seq<Desc>, args: seq<string>)
    requires |args| > 0 && (args[0] == "-" || DashCount(args[0]) > 2)
    ensures Dashed(descs, args) == Err(InvalidFormat)
  {
  }

  /** The errors of the long form: an unknown name, a missing value, a
      value given to a no-argument option, a value that does not convert. */
  lemma LongErrors(descs: seq<Desc>, args: seq<string>)
    requires |args| > 0 && DashCount(args[0]) == 2
    ensures var (name, val) := SplitEq(args[0][2..]);
      var d := FindDesc(descs, name);
      (d.None? ==> Dashed(descs, args) == Err(Unrecognized(name))) &&
      (d.Some? && TakesArg(descs[d.value]) && val.None? && |args| == 1 ==>
         Dashed(descs, args) == Err(MissingArgument(name))) &&
      (d.Some? && !TakesArg(descs[d.value]) && val.Some? ==>
         Dashed(descs, args) == Err(UnexpectedArgument(name))) &&
      (d.Some? && descs[d.value].arg == ArgInt && (val.Some? || |args| > 1) &&
         !IsIntLiteral(if val.Some? then val.value else args[1]) ==>
         Dashed(descs, args) == Err(InvalidArgument(name)))
  {
  }

  /** The characters c[i..k] all name no-argument options. */
  predicate NoArgRun(descs: seq<Desc>, c: string, i: nat, k: nat)
    requires i <= k <= |c|
  {
    forall j :: i <= j < k ==> FindDesc(descs, [c[j]]).Some? && !TakesArg(descs[FindDesc(descs, [c[j]]).value])
  }

  /** A cluster that fails at character k, after a run of no-argument
      characters, fails as a whole with that error. */
  lemma {:induction false} ClusterFailsAt(descs: seq<Desc>, c: string, i: nat, k: nat, next: seq<string>)
    requires i <= k < |c| && NoArgRun(descs, c, i, k)
    requires Cluster(descs, c, k, next).Err?
    decreases k - i
    ensures Cluster(descs, c, i, next) == Cluster(descs, c, k, next)
  {
    if i < k {
      assert NoArgRun(descs, c, i + 1, k);
      ClusterFailsAt(descs, c, i + 1, k, next);
      var d := FindDesc(descs, [c[i]]).value;
      assert Cluster(descs, c, i, next) == Prepend([Opt(d, [])], Cluster(descs, c, i + 1, next));
    }
  }

  /** The errors of a short cluster, reached after a run of no-argument
      characters up to k: an unknown character, an argument-taking last
      character with no following token, or a value that does not convert. */
  lemma ClusterErrors(descs: seq<Desc>, c: string, i: nat, k: nat, next: seq<string>)
    requires i <= k < |c| && NoArgRun(descs, c, i, k)
    ensures FindDesc(descs, [c[k]]).None? ==>
      Cluster(descs, c, i, next) == Err(Unrecognized([c[k]]))
    ensures FindDesc(descs, [c[k]]).Some? && TakesArg(descs[FindDesc(descs, [c[k]]).value]) && k == |c| - 1 && |next| == 0 ==>
      Cluster(descs, c, i, next) == Err(MissingArgument([c[k]]))
    ensures FindDesc(descs, [c[k]]).Some? && descs[FindDesc(descs, [c[k]]).value].arg == ArgInt &&
      (k < |c| - 1 || |next| > 0) &&
      !IsIntLiteral(if k < |c| - 1 then c[k + 1..] else next[0])
      ==> Cluster(descs, c, i, next) == Err(InvalidArgument([c[k]]))
  {
    if Cluster(descs, c, k, next).Err? {
      ClusterFailsAt(descs, c, i, k, next);
    }
  }
}
