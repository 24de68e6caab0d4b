/** The scanner Parse, the dashed-token resolver parseDashed and their
    helpers. Each loop of the Go code is a method proved equal to a
    recursive specification function; the properties of parsing are
    proved about those functions. */
module OptParse {
  import opened OptTypes
  import opened Strconv
  import opened OptJoin

  /** strings.HasPrefix(s, "-") */
  predicate HasDashPrefix(s: string) {
    |s| > 0 && s[0] == '-'
  }

  /** findDesc: the first descriptor whose short or long name is `name`. */
  function FindDesc(descs: seq<Desc>, name: string): (r: Option<nat>)
    ensures r.Some? ==> r.value < |descs| && Names(descs[r.value], name)
    ensures r.Some? ==> forall j :: 0 <= j < r.value ==> !Names(descs[j], name)
    ensures r.None? ==> forall j :: 0 <= j < |descs| ==> !Names(descs[j], name)
  {
    if |descs| == 0 then None
    else if Names(descs[0], name) then Some(0)
    else match FindDesc(descs[1..], name)
      case None => None
      case Some(k) => Some(k + 1)
  }

  /** The number of '-' characters at the start of s. */
  function DashCount(s: string): (n: nat)
    ensures n <= |s|
    ensures forall k :: 0 <= k < n ==> s[k] == '-'
    ensures n < |s| ==> s[n] != '-'
  {
    if |s| > 0 && s[0] == '-' then 1 + DashCount(s[1..]) else 0
  }

  /** dashesNum */
  method DashesNum(s: string) returns (n: nat)
    ensures n == DashCount(s)
  {
    n := 0;
    var k := 0;
    while k < |s|
      invariant n == k <= |s|
      invariant forall j :: 0 <= j < k ==> s[j] == '-'
    {
      if s[k] == '-' {
        n := n + 1;
      } else {
        break;
      }
      k := k + 1;
    }
  }

  /** parseArg: converts a raw value by the option's argument type.
      None is Go's nil value, returned for ArgNone. */
  function ParseArg(name: string, tp: ArgType, value: string): (r: Result<Option<Val>>)
    ensures tp == ArgNone ==> r == Ok(None)
    ensures tp == ArgString ==> r == Ok(Some(StrV(value)))
    ensures tp == ArgInt ==> (r.Ok? <==> IsIntLiteral(value))
    ensures tp == ArgInt && r.Ok? ==> r.value.Some? && r.value.value.IntV? && Atoi(value) == Some(r.value.value.i)
    ensures r.Err? ==> r.error == InvalidArgument(name)
  {
    match tp
    case ArgNone => Ok(None)
    case ArgInt =>
      (match Atoi(value)
       case None => Err(InvalidArgument(name))
       case Some(i) => Ok(Some(IntV(i))))
    case ArgString => Ok(Some(StrV(value)))
  }

  /** The single occurrence of descriptor d carrying the converted value v,
      together with the number n of tokens consumed. */
  function Single(d: nat, v: Result<Option<Val>>, n: nat): Result<(seq<Opt>, nat)>
    requires v.Ok? ==> v.value.Some?
  {
    match v
    case Err(e) => Err(e)
    case Ok(x) => Ok(([Opt(d, [x.value])], n))
  }

  /** Puts `opts` in front of the occurrences of a successful result. */
  function Prepend(opts: seq<Opt>, r: Result<(seq<Opt>, nat)>): Result<(seq<Opt>, nat)> {
    match r
    case Err(e) => Err(e)
    case Ok((os, n)) => Ok((opts + os, n))
  }

  lemma PrependNil(r: Result<(seq<Opt>, nat)>)
    ensures Prepend([], r) == r
  {
    if r.Ok? {
      assert [] + r.value.0 == r.value.0;
    }
  }

  lemma PrependTwice(a: seq<Opt>, b: seq<Opt>, r: Result<(seq<Opt>, nat)>)
    ensures Prepend(a, Prepend(b, r)) == Prepend(a + b, r)
  {
    if r.Ok? {
      assert a + (b + r.value.0) == (a + b) + r.value.0;
    }
  }

  /** The short cluster `runes` from position i on; `next` is what follows
      the dashed token on the command line. */
  function Cluster(descs: seq<Desc>, runes: string, i: nat, next: seq<string>): (r: Result<(seq<Opt>, nat)>)
    requires i <= |runes|
    decreases |runes| - i
    ensures r.Ok? ==> r.value.1 == 1 || (r.value.1 == 2 && |next| > 0)
    ensures r.Ok? ==> Shaped(descs, r.value.0)
  {
    if i == |runes| then Ok(([], 1))
    else
      var r := [runes[i]];
      match FindDesc(descs, r)
      case None => Err(Unrecognized(r))
      case Some(d) =>
        if TakesArg(descs[d]) then
          if i == |runes| - 1 then
            if |next| == 0 then Err(MissingArgument(r))
            else Single(d, ParseArg(r, descs[d].arg, next[0]), 2)
          else Single(d, ParseArg(r, descs[d].arg, runes[i + 1..]), 1)
        else Prepend([Opt(d, [])], Cluster(descs, runes, i + 1, next))
  }

  /** strings.SplitN(s, "=", 2): the text before the first '=' and,
      if there is one, the text after it. */
  function SplitEq(s: string): (r: (string, Option<string>))
    ensures '=' !in r.0
    ensures r.1.None? ==> r.0 == s
    ensures r.1.Some? ==> s == r.0 + "=" + r.1.value
  {
    if |s| == 0 then ("", None)
    else if s[0] == '=' then ("", Some(s[1..]))
    else
      var (name, val) := SplitEq(s[1..]);
      ([s[0]] + name, val)
  }

  /** The long form "--body", followed on the command line by args[1..]. */
  function Long(descs: seq<Desc>, body: string, args: seq<string>): (r: Result<(seq<Opt>, nat)>)
    requires |args| > 0
    ensures r.Ok? ==> |r.value.0| == 1 && 1 <= r.value.1 <= |args| && r.value.1 <= 2
    ensures r.Ok? ==> Shaped(descs, r.value.0)
    ensures r.Ok? ==> FindDesc(descs, SplitEq(body).0) == Some(r.value.0[0].desc)
    ensures r.Err? ==>
      var name := SplitEq(body).0;
      r.error in {Unrecognized(name), MissingArgument(name), UnexpectedArgument(name), InvalidArgument(name)}
  {
    var (name, val) := SplitEq(body);
    match FindDesc(descs, name)
    case None => Err(Unrecognized(name))
    case Some(d) =>
      if TakesArg(descs[d]) then
        if val.Some? then Single(d, ParseArg(name, descs[d].arg, val.value), 1)
        else if |args| < 2 then Err(MissingArgument(name))
        else Single(d, ParseArg(name, descs[d].arg, args[1]), 2)
      else if val.Some? then Err(UnexpectedArgument(name))
      else Ok(([Opt(d, [])], 1))
  }

  /** parseDashed: the occurrences produced by the dashed token args[0]
      and the number of tokens it consumed. */
  function Dashed(descs: seq<Desc>, args: seq<string>): (r: Result<(seq<Opt>, nat)>)
    requires |args| > 0
    ensures r.Ok? ==> 1 <= r.value.1 <= 2 && r.value.1 <= |args|
    ensures r.Ok? ==> Shaped(descs, r.value.0)
  {
    var a := args[0];
    var k := DashCount(a);
    if k == 0 then Err(NotAnOption)
    else if k == 1 then
      if |a| == 1 then Err(InvalidFormat) else Cluster(descs, a[1..], 0, args[1..])
    else if k == 2 then Long(descs, a[2..], args)
    else Err(InvalidFormat)
  }

  method ParseDashed(descs: seq<Desc>, args: seq<string>) returns (r: Result<(seq<Opt>, nat)>)
    requires |args| > 0
    ensures r == Dashed(descs, args)
  {
    var opts: seq<Opt> := [];
    var a := args[0];
    var n := 1;
    var dashes := DashesNum(a);
    if dashes == 0 {
      return Err(NotAnOption);
    } else if dashes == 1 {
      var runes := a[1..];
      if |runes| == 0 {
        return Err(InvalidFormat);
      }
      var i := 0;
      assert Dashed(descs, args) == Cluster(descs, runes, 0, args[1..]);
      PrependNil(Cluster(descs, runes, 0, args[1..]));
      while i < |runes|
        invariant 0 <= i <= |runes|
        invariant n == 1
        invariant Dashed(descs, args) == Prepend(opts, Cluster(descs, runes, i, args[1..]))
      {
        var r := [runes[i]];
        var d := FindDesc(descs, r);
        if d.None? {
          return Err(Unrecognized(r));
        }
        var o := Opt(d.value, []);
        if TakesArg(descs[d.value]) {
          var v: string;
          if i == |runes| - 1 {
            if |args| < 2 {
              return Err(MissingArgument(r));
            }
            v := args[1];
            n := n + 1;
          } else {
            v := runes[i + 1..];
          }
          var x := ParseArg(r, descs[d.value].arg, v);
          if x.Err? {
            return Err(x.error);
          }
          o := o.(args := [x.value.value]);
          assert Cluster(descs, runes, i, args[1..]) == Ok(([o], n));
          opts := opts + [o];
          break;
        } else {
          assert Cluster(descs, runes, i, args[1..]) == Prepend([o], Cluster(descs, runes, i + 1, args[1..]));
          PrependTwice(opts, [o], Cluster(descs, runes, i + 1, args[1..]));
          opts := opts + [o];
        }
        i := i + 1;
      }
      if i == |runes| {
        assert opts + [] == opts;
      }
      assert Dashed(descs, args) == Ok((opts, n));
    } else if dashes == 2 {
      assert Dashed(descs, args) == Long(descs, a[2..], args);
      var (name, val) := SplitEq(a[2..]);
      var d := FindDesc(descs, name);
      if d.None? {
        return Err(Unrecognized(name));
      }
      var vals: seq<Val> := [];
      if TakesArg(descs[d.value]) {
        var v: string;
        if val.Some? {
          v := val.value;
        } else {
          if |args| < 2 {
            return Err(MissingArgument(name));
          }
          v := args[1];
          n := n + 1;
        }
        var x := ParseArg(name, descs[d.value].arg, v);
        if x.Err? {
          return Err(x.error);
        }
        assert Long(descs, a[2..], args) == Single(d.value, x, n);
        vals := [x.value.value];
      } else if val.Some? {
        return Err(UnexpectedArgument(name));
      } else {
        assert Long(descs, a[2..], args) == Ok(([Opt(d.value, [])], 1));
      }
      opts := opts + [Opt(d.value, vals)];
      assert opts == [Opt(d.value, vals)];
      assert Dashed(descs, args) == Ok((opts, n));
    } else {
      return Err(InvalidFormat);
    }
    return Ok((opts, n));
  }

  lemma ShapedConcat(descs: seq<Desc>, a: seq<Opt>, b: seq<Opt>)
    requires Shaped(descs, a) && Shaped(descs, b)
    ensures Shaped(descs, a + b)
  {
    forall i | 0 <= i < |a + b|
      ensures (a + b)[i].desc < |descs|
      ensures var o := (a + b)[i]; if TakesArg(descs[o.desc]) then |o.args| == 1 else o.args == []
    {
      if i < |a| {
        assert (a + b)[i] == a[i];
      } else {
        assert (a + b)[i] == b[i - |a|];
      }
    }
  }

  /** The single pass of Parse before the merge: every option occurrence in
      input order, and the positional arguments. */
  function Scan(descs: seq<Desc>, args: seq<string>): (r: Result<(seq<Opt>, seq<string>)>)
    decreases |args|
  {
    if |args| == 0 then Ok(([], []))
    else if args[0] == "--" then Ok(([], args[1..]))
    else if HasDashPrefix(args[0]) then
      match Dashed(descs, args)
      case Err(e) => Err(e)
      case Ok((os, n)) =>
        match Scan(descs, args[n..])
        case Err(e) => Err(e)
        case Ok((rest, ps)) =>
          Ok((os + rest, ps))
    else
      match Scan(descs, args[1..])
      case Err(e) => Err(e)
      case Ok((os, ps)) => Ok((os, [args[0]] + ps))
  }

  /** Every occurrence the scan produces names a descriptor and carries one
      value exactly when that descriptor takes an argument. */
  lemma {:induction false} ScanShaped(descs: seq<Desc>, args: seq<string>)
    requires Scan(descs, args).Ok?
    decreases |args|
    ensures Shaped(descs, Scan(descs, args).value.0)
  {
    if |args| > 0 && args[0] != "--" {
      if HasDashPrefix(args[0]) {
        var (os, n) := Dashed(descs, args).value;
        ScanShaped(descs, args[n..]);
        ShapedConcat(descs, os, Scan(descs, args[n..]).value.0);
      } else {
        ScanShaped(descs, args[1..]);
      }
    }
  }

  /** Parse: the scan, with its occurrences merged by join. */
  function ParseSpec(descs: seq<Desc>, args: seq<string>): Result<(seq<Opt>, seq<string>)> {
    match Scan(descs, args)
    case Err(e) => Err(e)
    case Ok((occs, ps)) =>
      ScanShaped(descs, args);
      Ok((JoinSpec(descs, occs), ps))
  }

  /** Puts the occurrences and positionals gathered so far in front of a scan result. */
  function Extend(opts: seq<Opt>, params: seq<string>, r: Result<(seq<Opt>, seq<string>)>): Result<(seq<Opt>, seq<string>)> {
    match r
    case Err(e) => Err(e)
    case Ok((os, ps)) => Ok((opts + os, params + ps))
  }

  lemma ExtendNil(r: Result<(seq<Opt>, seq<string>)>)
    ensures Extend([], [], r) == r
  {
    if r.Ok? {
      assert [] + r.value.0 == r.value.0 && [] + r.value.1 == r.value.1;
    }
  }

  /** Parse's loop invariant: the scan of the whole command line is what has
      been gathered so far followed by the scan of what is left; past the
      end (after "--") it is exactly what has been gathered. */
  predicate Progress(descs: seq<Desc>, args: seq<string>, i: nat, opts: seq<Opt>, params: seq<string>) {
    i <= |args| + 1 &&
    if i <= |args| then Scan(descs, args) == Extend(opts, params, Scan(descs, args[i..]))
    else Scan(descs, args) == Ok((opts, params))
  }

  lemma ProgressStart(descs: seq<Desc>, args: seq<string>)
    ensures Progress(descs, args, 0, [], [])
  {
    assert args[0..] == args;
    ExtendNil(Scan(descs, args));
  }

  /** The end marker: everything after it is positional. */
  lemma EndMarkerStep(descs: seq<Desc>, args: seq<string>, i: nat, opts: seq<Opt>, params: seq<string>)
    requires i < |args| && args[i] == "--" && Progress(descs, args, i, opts, params)
    ensures Progress(descs, args, |args| + 1, opts, params + args[i + 1..])
  {
    assert args[i..][0] == "--" && args[i..][1..] == args[i + 1..];
    assert opts + [] == opts;
  }

  /** A dashed token: the resolver's occurrences go next. */
  lemma DashedStep(descs: seq<Desc>, args: seq<string>, i: nat, opts: seq<Opt>, params: seq<string>, o: seq<Opt>, n: nat)
    requires i < |args| && args[i] != "--" && HasDashPrefix(args[i]) && Progress(descs, args, i, opts, params)
    requires Dashed(descs, args[i..]) == Ok((o, n))
    ensures Progress(descs, args, i + n, opts + o, params)
  {
    var tail := args[i..];
    assert tail[0] == args[i] && tail[n..] == args[i + n..];
    var rest := Scan(descs, tail[n..]);
    if rest.Ok? {
      assert (opts + o) + rest.value.0 == opts + (o + rest.value.0);
    }
  }

  /** A dashed token the resolver rejects: the whole scan fails with its error. */
  lemma DashedFails(descs: seq<Desc>, args: seq<string>, i: nat, opts: seq<Opt>, params: seq<string>, e: Error)
    requires i < |args| && args[i] != "--" && HasDashPrefix(args[i]) && Progress(descs, args, i, opts, params)
    requires Dashed(descs, args[i..]) == Err(e)
    ensures ParseSpec(descs, args) == Err(e)
  {
    assert args[i..][0] == args[i];
  }

  /** A positional token. */
  lemma PositionalStep(descs: seq<Desc>, args: seq<string>, i: nat, opts: seq<Opt>, params: seq<string>)
    requires i < |args| && args[i] != "--" && !HasDashPrefix(args[i]) && Progress(descs, args, i, opts, params)
    ensures Progress(descs, args, i + 1, opts, params + [args[i]])
  {
    var tail := args[i..];
    assert tail[0] == args[i] && tail[1..] == args[i + 1..];
    var rest := Scan(descs, tail[1..]);
    if rest.Ok? {
      assert (params + [tail[0]]) + rest.value.1 == params + ([tail[0]] + rest.value.1);
    }
  }

  lemma ProgressDone(descs: seq<Desc>, args: seq<string>, i: nat, opts: seq<Opt>, params: seq<string>)
    requires |args| <= i && Progress(descs, args, i, opts, params)
    ensures Scan(descs, args) == Ok((opts, params))
  {
    if i == |args| {
      assert args[i..] == [];
      assert opts + [] == opts && params + [] == params;
    }
  }

  method Parse(args: seq<string>, descs: seq<Desc>) returns (r: Result<(seq<Opt>, seq<string>)>)
    ensures r == ParseSpec(descs, args)
  {
    var opts: seq<Opt> := [];
    var params: seq<string> := [];
    var i := 0;
    ProgressStart(descs, args);
    while i < |args|
      invariant Progress(descs, args, i, opts, params)
      decreases |args| + 1 - i
    {
      var arg := args[i];
      if arg == "--" {
        // Flags end indicator: the rest are positional arguments.
        EndMarkerStep(descs, args, i, opts, params);
        params := params + args[i + 1..];
        i := i + (|args| - i + 1);
      } else if HasDashPrefix(arg) {
        var res := ParseDashed(descs, args[i..]);
        if res.Err? {
          DashedFails(descs, args, i, opts, params, res.error);
          return Err(res.error);
        }
        var (o, n) := res.value;
        DashedStep(descs, args, i, opts, params, o, n);
        opts := opts + o;
        i := i + n;
      } else {
        PositionalStep(descs, args, i, opts, params);
        params := params + [arg];
        i := i + 1;
      }
    }
    ProgressDone(descs, args, i, opts, params);
    ScanShaped(descs, args);
    var joined := Join(descs, opts);
    return Ok((joined, params));
  }
}
