/** The accessors of a parsed option list: lookups by short or long name. */
module OptAccess {
  import opened OptTypes

  /** option: the position of the first parsed option whose descriptor has
      `name` as its short or long name. */
  function FindOption(descs: seq<Desc>, opts: seq<Opt>, name: string): (r: Option<nat>)
    requires ValidOpts(descs, opts)
    ensures r.Some? ==> r.value < |opts| && Names(descs[opts[r.value].desc], name)
    ensures r.Some? ==> forall j :: 0 <= j < r.value ==> !Names(descs[opts[j].desc], name)
    ensures r.None? ==> forall j :: 0 <= j < |opts| ==> !Names(descs[opts[j].desc], name)
  {
    if |opts| == 0 then None
    else if Names(descs[opts[0].desc], name) then Some(0)
    else match FindOption(descs, opts[1..], name)
      case None => None
      case Some(k) => Some(k + 1)
  }

  /** args: the values of that option, none when it is absent. */
  function Args(descs: seq<Desc>, opts: seq<Opt>, name: string): (r: seq<Val>)
    requires ValidOpts(descs, opts)
  {
    match FindOption(descs, opts, name)
    case None => []
    case Some(k) => opts[k].args
  }

  /** What Args finds, stated without the search: the values of the first
      option answering to `name`, and none when no option answers to it. */
  lemma ArgsFirst(descs: seq<Desc>, opts: seq<Opt>, name: string)
    requires ValidOpts(descs, opts)
    ensures (forall k :: 0 <= k < |opts| ==> !Names(descs[opts[k].desc], name)) ==> Args(descs, opts, name) == []
    ensures forall k :: 0 <= k < |opts| && Names(descs[opts[k].desc], name) ==>
      (forall j :: 0 <= j < k ==> !Names(descs[opts[j].desc], name)) ==> Args(descs, opts, name) == opts[k].args
  {
  }

  /** arg: the last of those values, if any. */
  function Arg(descs: seq<Desc>, opts: seq<Opt>, name: string): (r: Option<Val>)
    requires ValidOpts(descs, opts)
    ensures r.None? <==> Args(descs, opts, name) == []
    ensures r.Some? ==> r.value == Args(descs, opts, name)[|Args(descs, opts, name)| - 1]
  {
    var vs := Args(descs, opts, name);
    if |vs| == 0 then None else Some(vs[|vs| - 1])
  }

  /** Bool: whether an option answering to `name` was given. */
  function Bool(descs: seq<Desc>, opts: seq<Opt>, name: string): (r: bool)
    requires ValidOpts(descs, opts)
    ensures r <==> exists k :: 0 <= k < |opts| && Names(descs[opts[k].desc], name)
  {
    FindOption(descs, opts, name).Some?
  }

  /** Int: the last value with true, (0, false) when there is none, and a
      panic when that value is not an integer. */
  function Int(descs: seq<Desc>, opts: seq<Opt>, name: string): (r: Checked<(int, bool)>)
    requires ValidOpts(descs, opts)
    ensures Args(descs, opts, name) == [] ==> r == Fine((0, false))
    ensures Args(descs, opts, name) != [] ==>
      var last := Args(descs, opts, name)[|Args(descs, opts, name)| - 1];
      r == if last.IntV? then Fine((last.i, true)) else Panic
  {
    match Arg(descs, opts, name)
    case None => Fine((0, false))
    case Some(v) =>
      match v
      case IntV(i) => Fine((i, true))
      case StrV(_) => Panic
  }

  /** IntOr: the value Int finds, or the default when it finds none. */
  function IntOr(descs: seq<Desc>, opts: seq<Opt>, name: string, value: int): (r: Checked<int>)
    requires ValidOpts(descs, opts)
    ensures Args(descs, opts, name) == [] ==> r == Fine(value)
    ensures Args(descs, opts, name) != [] ==>
      var last := Args(descs, opts, name)[|Args(descs, opts, name)| - 1];
      r == if last.IntV? then Fine(last.i) else Panic
  {
    match Int(descs, opts, name)
    case Panic => Panic
    case Fine((i, ok)) => if !ok then Fine(value) else Fine(i)
  }

  /** String: the last value with true, ("", false) when there is none, and
      a panic when that value is not a string. */
  function String(descs: seq<Desc>, opts: seq<Opt>, name: string): (r: Checked<(string, bool)>)
    requires ValidOpts(descs, opts)
    ensures Args(descs, opts, name) == [] ==> r == Fine(("", false))
    ensures Args(descs, opts, name) != [] ==>
      var last := Args(descs, opts, name)[|Args(descs, opts, name)| - 1];
      r == if last.StrV? then Fine((last.s, true)) else Panic
  {
    match Arg(descs, opts, name)
    case None => Fine(("", false))
    case Some(v) =>
      match v
      case StrV(s) => Fine((s, true))
      case IntV(_) => Panic
  }

  /** StringOr: the value String finds, or the default when it finds none. */
  function StringOr(descs: seq<Desc>, opts: seq<Opt>, name: string, value: string): (r: Checked<string>)
    requires ValidOpts(descs, opts)
    ensures Args(descs, opts, name) == [] ==> r == Fine(value)
    ensures Args(descs, opts, name) != [] ==>
      var last := Args(descs, opts, name)[|Args(descs, opts, name)| - 1];
      r == if last.StrV? then Fine(last.s) else Panic
  {
    match String(descs, opts, name)
    case Panic => Panic
    case Fine((s, ok)) => if !ok then Fine(value) else Fine(s)
  }

  /** Ints: all the values, in order, panicking at any that is not an integer. */
  method Ints(descs: seq<Desc>, opts: seq<Opt>, name: string) returns (r: Checked<seq<int>>)
    requires ValidOpts(descs, opts)
    ensures var v := Args(descs, opts, name);
      (r.Fine? <==> forall k :: 0 <= k < |v| ==> v[k].IntV?) &&
      (r.Fine? ==> |r.value| == |v| && forall k :: 0 <= k < |v| ==> v[k] == IntV(r.value[k]))
  {
    var v := Args(descs, opts, name);
    var s := new int[|v|];
    for i := 0 to |v|
      invariant forall k :: 0 <= k < i ==> v[k] == IntV(s[k])
    {
      match v[i]
      case IntV(ii) =>
        s[i] := ii;
      case StrV(_) =>
        return Panic;
    }
    return Fine(s[..]);
  }

  /** Strings: all the values, in order, panicking at any that is not a string. */
  method Strings(descs: seq<Desc>, opts: seq<Opt>, name: string) returns (r: Checked<seq<string>>)
    requires ValidOpts(descs, opts)
    ensures var v := Args(descs, opts, name);
      (r.Fine? <==> forall k :: 0 <= k < |v| ==> v[k].StrV?) &&
      (r.Fine? ==> |r.value| == |v| && forall k :: 0 <= k < |v| ==> v[k] == StrV(r.value[k]))
  {
    var v := Args(descs, opts, name);
    var s := new string[|v|];
    for i := 0 to |v|
      invariant forall k :: 0 <= k < i ==> v[k] == StrV(s[k])
    {
      match v[i]
      case StrV(ss) =>
        s[i] := ss;
      case IntV(_) =>
        return Panic;
    }
    return Fine(s[..]);
  }
}
