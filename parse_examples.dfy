/** The command lines of the package's own tests, worked through the model. */
module ParseExamples {
  import opened OptTypes
  import opened OptJoin
  import opened OptParse
  import opened OptAccess
  import opened Strconv
  import opened ParseProperties

  // ---- "--" ends the options ----

  const OnlyA := [Desc("a", "", ArgNone, "", "")]

  lemma DashedA(rest: seq<string>)
    ensures Dashed(OnlyA, ["-a"] + rest) == Ok(([Opt(0, [])], 1))
  {
    var args := ["-a"] + rest;
    var a := args[0];
    assert a == "-a" && a[1..] == "a" && "a"[1..] == [] && args[1..] == rest;
    assert DashCount(a) == 1;
    assert ['a'] == "a";
    assert FindDesc(OnlyA, "a") == Some(0);
    assert Cluster(OnlyA, "a", 1, rest) == Ok(([], 1));
    assert [Opt(0, [])] + [] == [Opt(0, [])];
    assert Cluster(OnlyA, "a", 0, rest) == Ok(([Opt(0, [])], 1));
  }

  /** -a A -- -b C: one option, and everything after "--" verbatim. */
  lemma DoubleDashExample()
    ensures ParseSpec(OnlyA, ["-a", "A", "--", "-b", "C"]) == Ok(([Opt(0, [])], ["A", "-b", "C"]))
  {
    var args := ["-a", "A", "--", "-b", "C"];
    DashedA(args[1..]);
    assert args == ["-a"] + args[1..];
    assert Scan(OnlyA, args[2..]) == Ok(([], ["-b", "C"])) by {
      assert args[2..][0] == "--" && args[2..][1..] == ["-b", "C"];
    }
    assert Scan(OnlyA, args[1..]) == Ok(([], ["A", "-b", "C"])) by {
      assert args[1..][0] == "A" && args[1..][1..] == args[2..];
      assert !HasDashPrefix("A") && "A" != "--";
      assert ["A"] + ["-b", "C"] == ["A", "-b", "C"];
    }
    assert Scan(OnlyA, args) == Ok(([Opt(0, [])], ["A", "-b", "C"]));
    assert JoinSpec(OnlyA, [Opt(0, [])]) == [Opt(0, [])];
  }

  // ---- Integer values, by short and by long name ----

  const IntAB := [Desc("a", "aaa", ArgInt, "", ""), Desc("b", "bbb", ArgInt, "", "")]

  lemma AtoiDigit(c: char)
    requires '0' <= c <= '9'
    ensures Atoi([c]) == Some(c as int - '0' as int)
  {
    var s := [c];
    assert s[..0] == [] && s[0] == c && AllDigits(s);
    assert DigitsValue(s) == DigitValue(c);
  }

  lemma DashedShortA(v: string, rest: seq<string>)
    requires |v| == 1 && '0' <= v[0] <= '9'
    ensures Dashed(IntAB, ["-a", v] + rest) == Ok(([Opt(0, [IntV(v[0] as int - '0' as int)])], 2))
  {
    var args := ["-a", v] + rest;
    DashedShort(IntAB, args, "a");
    assert ['a'] == "a" && args[1..][0] == v && v == [v[0]];
    assert FindDesc(IntAB, "a") == Some(0);
    AtoiDigit(v[0]);
  }

  lemma DashedShortB(v: string, rest: seq<string>)
    requires |v| == 1 && '0' <= v[0] <= '9'
    ensures Dashed(IntAB, ["-b", v] + rest) == Ok(([Opt(1, [IntV(v[0] as int - '0' as int)])], 2))
  {
    var args := ["-b", v] + rest;
    DashedShort(IntAB, args, "b");
    assert ['b'] == "b" && args[1..][0] == v && v == [v[0]];
    assert FindDesc(IntAB[1..], "b") == Some(0);
    assert FindDesc(IntAB, "b") == Some(1);
    AtoiDigit(v[0]);
  }

  lemma DashedLongA(v: string, rest: seq<string>)
    requires |v| == 1 && '0' <= v[0] <= '9'
    ensures Dashed(IntAB, ["--aaa", v] + rest) == Ok(([Opt(0, [IntV(v[0] as int - '0' as int)])], 2))
  {
    var args := ["--aaa", v] + rest;
    DashedLong(IntAB, args, "aaa");
    assert SplitEq("aaa") == ("aaa", None) by {
      assert "aaa"[1..] == "aa" && "aa"[1..] == "a" && "a"[1..] == "";
      assert ['a'] + "" == "a" && ['a'] + "a" == "aa" && ['a'] + "aa" == "aaa";
    }
    assert FindDesc(IntAB, "aaa") == Some(0);
    LongNextValue(IntAB, "aaa", args, 0);
    assert args[1] == v && v == [v[0]];
    AtoiDigit(v[0]);
  }

  /** One dashed token and its value in front of the rest of the scan. */
  lemma ScanPair(descs: seq<Desc>, t: string, v: string, rest: seq<string>, os: seq<Opt>, tail: seq<Opt>, ps: seq<string>)
    requires t != "--" && HasDashPrefix(t)
    requires Dashed(descs, [t, v] + rest) == Ok((os, 2)) && Scan(descs, rest) == Ok((tail, ps))
    ensures Scan(descs, [t, v] + rest) == Ok((os + tail, ps))
  {
    var a := [t, v] + rest;
    assert a[0] == t && a[2..] == rest;
  }

  lemma SixTokens(args: seq<string>)
    requires args == ["-a", "1", "--aaa", "2", "-b", "3"]
    ensures args == ["-a", "1"] + (["--aaa", "2"] + (["-b", "3"] + []))
  {
  }

  lemma ThreeOpts(o1: Opt, o2: Opt, o3: Opt)
    ensures [o1] + ([o2] + ([o3] + [])) == [o1, o2, o3]
  {
  }

  lemma TypeIntScan(args: seq<string>)
    requires args == ["-a", "1", "--aaa", "2", "-b", "3"]
    ensures Scan(IntAB, args) == Ok(([Opt(0, [IntV(1)]), Opt(0, [IntV(2)]), Opt(1, [IntV(3)])], []))
  {
    var o1, o2, o3 := Opt(0, [IntV(1)]), Opt(0, [IntV(2)]), Opt(1, [IntV(3)]);
    var r3: seq<string> := [];
    DashedShortB("3", r3);
    ScanPair(IntAB, "-b", "3", r3, [o3], [], []);
    var r2 := ["-b", "3"] + r3;
    DashedLongA("2", r2);
    ScanPair(IntAB, "--aaa", "2", r2, [o2], [o3] + [], []);
    var r1 := ["--aaa", "2"] + r2;
    DashedShortA("1", r1);
    ScanPair(IntAB, "-a", "1", r1, [o1], [o2] + ([o3] + []), []);
    SixTokens(args);
    ThreeOpts(o1, o2, o3);
  }

  lemma JoinFirst(occs: seq<Opt>)
    requires occs == [Opt(0, [IntV(1)])]
    ensures JoinSpec(IntAB, occs) == [Opt(0, [IntV(1)])]
  {
    assert occs[..0] == [];
  }

  lemma JoinSecond(occs: seq<Opt>)
    requires occs == [Opt(0, [IntV(1)]), Opt(0, [IntV(2)])]
    ensures JoinSpec(IntAB, occs) == [Opt(0, [IntV(1), IntV(2)])]
  {
    JoinFirst(occs[..1]);
    var u := [Opt(0, [IntV(1)])];
    assert LastIndexOf(u, 0) == Some(0);
    assert [IntV(1)] + [IntV(2)] == [IntV(1), IntV(2)];
    assert u[0 := u[0].(args := u[0].args + [IntV(2)])] == [Opt(0, [IntV(1), IntV(2)])];
  }

  lemma TypeIntJoin(occs: seq<Opt>)
    requires occs == [Opt(0, [IntV(1)]), Opt(0, [IntV(2)]), Opt(1, [IntV(3)])]
    ensures JoinSpec(IntAB, occs) == [Opt(0, [IntV(1), IntV(2)]), Opt(1, [IntV(3)])]
  {
    JoinSecond(occs[..2]);
    var u := [Opt(0, [IntV(1), IntV(2)])];
    assert LastIndexOf(u, 1) == None;
    assert u + [Opt(1, [IntV(3)])] == [Opt(0, [IntV(1), IntV(2)]), Opt(1, [IntV(3)])];
  }

  /** -a 1 --aaa 2 -b 3: both spellings of "a" feed one entry, in order. */
  lemma TypeIntExample()
    ensures ParseSpec(IntAB, ["-a", "1", "--aaa", "2", "-b", "3"]) ==
      Ok(([Opt(0, [IntV(1), IntV(2)]), Opt(1, [IntV(3)])], []))
  {
    TypeIntScan(["-a", "1", "--aaa", "2", "-b", "3"]);
    TypeIntJoin([Opt(0, [IntV(1)]), Opt(0, [IntV(2)]), Opt(1, [IntV(3)])]);
  }

  /** The accessors on that result: Int("a") is the last value, IntOr of an
      absent name is the default. */
  lemma TypeIntAccessors()
    ensures var J := [Opt(0, [IntV(1), IntV(2)]), Opt(1, [IntV(3)])];
      Int(IntAB, J, "a") == Fine((2, true)) &&
      Args(IntAB, J, "a") == [IntV(1), IntV(2)] &&
      IntOr(IntAB, J, "a", -1) == Fine(2) &&
      IntOr(IntAB, J, "c", -1) == Fine(-1)
  {
    var J := [Opt(0, [IntV(1), IntV(2)]), Opt(1, [IntV(3)])];
    assert FindOption(IntAB, J, "a") == Some(0);
    assert FindOption(IntAB, J[1..], "c") == None;
    assert FindOption(IntAB, J, "c") == None;
  }

  /** Ints("a") on that result: both values, in command-line order. */
  method TypeIntInts() returns (r: Checked<seq<int>>)
    ensures r == Fine([1, 2])
  {
    var J := [Opt(0, [IntV(1), IntV(2)]), Opt(1, [IntV(3)])];
    TypeIntAccessors();
    r := Ints(IntAB, J, "a");
    var v := Args(IntAB, J, "a");
    assert v[0] == IntV(1) && v[1] == IntV(2);
    assert r.Fine? && |r.value| == 2;
    assert r.value == [r.value[0], r.value[1]];
  }

  // ---- String values, attached and separate ----

  const StrAB := [Desc("a", "a-opt", ArgString, "", ""), Desc("b", "b-opt", ArgString, "", "")]

  lemma DashedLongAOpt(v: string, rest: seq<string>)
    ensures Dashed(StrAB, ["--a-opt", v] + rest) == Ok(([Opt(0, [StrV(v)])], 2))
  {
    var args := ["--a-opt", v] + rest;
    DashedLong(StrAB, args, "a-opt");
    SplitEqNone("a-opt");
    assert FindDesc(StrAB, "a-opt") == Some(0);
    LongNextValue(StrAB, "a-opt", args, 0);
    assert args[1] == v;
  }

  lemma DashedAttachedB(rest: seq<string>)
    ensures Dashed(StrAB, ["-bB"] + rest) == Ok(([Opt(1, [StrV("B")])], 1))
  {
    var args := ["-bB"] + rest;
    DashedShort(StrAB, args, "bB");
    assert ['b'] == "b" && "bB"[1..] == "B";
    assert FindDesc(StrAB[1..], "b") == Some(0);
    assert FindDesc(StrAB, "b") == Some(1);
  }

  lemma StringScan(args: seq<string>)
    requires args == ["--a-opt", "A", "-bB"]
    ensures Scan(StrAB, args) == Ok(([Opt(0, [StrV("A")]), Opt(1, [StrV("B")])], []))
  {
    var none: seq<string> := [];
    DashedAttachedB(none);
    var b := ["-bB"] + none;
    assert b[0] == "-bB" && b[1..] == none;
    assert Scan(StrAB, b) == Ok(([Opt(1, [StrV("B")])] + [], []));
    DashedLongAOpt("A", b);
    ScanPair(StrAB, "--a-opt", "A", b, [Opt(0, [StrV("A")])], [Opt(1, [StrV("B")])] + [], []);
    assert args == ["--a-opt", "A"] + b;
    assert [Opt(0, [StrV("A")])] + ([Opt(1, [StrV("B")])] + []) == [Opt(0, [StrV("A")]), Opt(1, [StrV("B")])];
  }

  lemma StringJoin(occs: seq<Opt>)
    requires occs == [Opt(0, [StrV("A")]), Opt(1, [StrV("B")])]
    ensures JoinSpec(StrAB, occs) == occs
  {
    assert occs[..1][..0] == [];
    assert JoinSpec(StrAB, occs[..1]) == [Opt(0, [StrV("A")])];
    assert LastIndexOf([Opt(0, [StrV("A")])], 1) == None;
  }

  lemma StringParse(args: seq<string>)
    requires args == ["--a-opt", "A", "-bB"]
    ensures ParseSpec(StrAB, args) == Ok(([Opt(0, [StrV("A")]), Opt(1, [StrV("B")])], []))
  {
    StringScan(args);
    StringJoin([Opt(0, [StrV("A")]), Opt(1, [StrV("B")])]);
  }

  lemma StringAccessors(J: seq<Opt>)
    requires J == [Opt(0, [StrV("A")]), Opt(1, [StrV("B")])]
    ensures ValidOpts(StrAB, J)
    ensures String(StrAB, J, "a") == Fine(("A", true)) && String(StrAB, J, "a-opt") == Fine(("A", true))
    ensures String(StrAB, J, "b") == Fine(("B", true)) && String(StrAB, J, "b-opt") == Fine(("B", true))
  {
    assert FindOption(StrAB, J, "a") == Some(0) && FindOption(StrAB, J, "a-opt") == Some(0);
    assert FindOption(StrAB, J[1..], "b") == Some(0) && FindOption(StrAB, J[1..], "b-opt") == Some(0);
  }

  /** --a-opt A -bB: a separate and an attached value; each option answers
      to its short and to its long name. */
  lemma StringExample()
    ensures var J := [Opt(0, [StrV("A")]), Opt(1, [StrV("B")])];
      ParseSpec(StrAB, ["--a-opt", "A", "-bB"]) == Ok((J, [])) &&
      String(StrAB, J, "a") == Fine(("A", true)) &&
      String(StrAB, J, "a-opt") == Fine(("A", true)) &&
      String(StrAB, J, "b") == Fine(("B", true)) &&
      String(StrAB, J, "b-opt") == Fine(("B", true))
  {
    StringParse(["--a-opt", "A", "-bB"]);
    StringAccessors([Opt(0, [StrV("A")]), Opt(1, [StrV("B")])]);
  }
}
