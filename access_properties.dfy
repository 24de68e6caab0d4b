/** What the accessors answer about the result of Parse, in terms of the
    option occurrences in the command line. */
module AccessProperties {
  import opened OptTypes
  import opened OptJoin
  import opened OptParse
  import opened OptAccess
  import opened ParseProperties

  /** Bool on a merged list asks whether any occurrence answers to the name. */
  lemma BoolJoined(descs: seq<Desc>, occs: seq<Opt>, J: seq<Opt>, name: string)
    requires ValidOpts(descs, occs) && Joined(descs, occs, J)
    ensures Bool(descs, J, name) <==> exists k :: 0 <= k < |occs| && Names(descs[occs[k].desc], name)
  {
    if Bool(descs, J, name) {
      var i := FindOption(descs, J, name).value;
      var k := FirstIndex(occs, J[i].desc);
      assert Names(descs[occs[k].desc], name);
    }
    if k :| 0 <= k < |occs| && Names(descs[occs[k].desc], name) {
      var i := FirstIndex(J, occs[k].desc);
      assert Names(descs[J[i].desc], name);
    }
  }

  /** The entry an accessor finds in a merged list is that of the first
      occurrence answering to the name. */
  lemma FoundJoined(descs: seq<Desc>, occs: seq<Opt>, J: seq<Opt>, name: string, k: nat)
    requires ValidOpts(descs, occs) && Joined(descs, occs, J)
    requires k < |occs| && Names(descs[occs[k].desc], name)
    requires forall j :: 0 <= j < k ==> !Names(descs[occs[j].desc], name)
    ensures FindOption(descs, J, name).Some?
    ensures J[FindOption(descs, J, name).value].desc == occs[k].desc
  {
    BoolJoined(descs, occs, J, name);
    var i := FindOption(descs, J, name).value;
    var i' := FirstIndex(J, occs[k].desc);
    assert J[i'].desc == occs[k].desc;
    OccursAt(occs, occs[k].desc, k);
    var f := FirstIndex(occs, J[i].desc);
    assert Names(descs[occs[f].desc], name);
    if i < i' {
      assert false;
    }
  }

  /** After a successful Parse, Bool(name) holds exactly when some option
      given on the command line answers to name. */
  lemma BoolAfterParse(descs: seq<Desc>, args: seq<string>, name: string)
    requires ParseSpec(descs, args).Ok?
    ensures Scan(descs, args).Ok? && ValidOpts(descs, ParseSpec(descs, args).value.0)
    ensures var occs := Scan(descs, args).value.0;
      ValidOpts(descs, occs) &&
      (Bool(descs, ParseSpec(descs, args).value.0, name) <==>
        exists k :: 0 <= k < |occs| && Names(descs[occs[k].desc], name))
  {
    ParseMerges(descs, args);
    ScanShaped(descs, args);
    BoolJoined(descs, Scan(descs, args).value.0, ParseSpec(descs, args).value.0, name);
  }

  /** After a successful Parse, the values an accessor sees for name are all
      values given to the option of the first occurrence answering to name,
      in command-line order, and none for a no-argument option. */
  lemma ArgsAfterParse(descs: seq<Desc>, args: seq<string>, name: string, k: nat)
    requires ParseSpec(descs, args).Ok? && Scan(descs, args).Ok?
    requires var occs := Scan(descs, args).value.0;
      ValidOpts(descs, occs) && k < |occs| && Names(descs[occs[k].desc], name) &&
      forall j :: 0 <= j < k ==> !Names(descs[occs[j].desc], name)
    ensures ValidOpts(descs, ParseSpec(descs, args).value.0)
    ensures var occs, d := Scan(descs, args).value.0, Scan(descs, args).value.0[k].desc;
      Args(descs, ParseSpec(descs, args).value.0, name) ==
        if TakesArg(descs[d]) then AllArgs(occs, d) else []
  {
    ParseMerges(descs, args);
    FoundJoined(descs, Scan(descs, args).value.0, ParseSpec(descs, args).value.0, name, k);
  }

  /** When no option on the command line answers to name, the accessors see
      no values: Int and String give their zero value with false, IntOr and
      StringOr their default. */
  lemma AbsentAfterParse(descs: seq<Desc>, args: seq<string>, name: string)
    requires ParseSpec(descs, args).Ok? && Scan(descs, args).Ok?
    requires var occs := Scan(descs, args).value.0;
      ValidOpts(descs, occs) && forall j :: 0 <= j < |occs| ==> !Names(descs[occs[j].desc], name)
    ensures ValidOpts(descs, ParseSpec(descs, args).value.0)
    ensures Args(descs, ParseSpec(descs, args).value.0, name) == []
  {
    BoolAfterParse(descs, args, name);
  }
}
