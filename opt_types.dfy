/** Data model of the opt package: option descriptors, typed values,
    option occurrences and the parse errors. */
module OptTypes {

  datatype Option<T> = None | Some(value: T)

  /** The kind of argument an option takes (Go's ArgType).
      ArgFloat is not part of this model. */
  datatype ArgType = ArgNone | ArgInt | ArgString

  /** One supported option (Go's Desc). An empty `short` or `long`
      means the option has no short or no long spelling. */
  datatype Desc = Desc(short: string, long: string, arg: ArgType, argName: string, description: string)

  /** A converted argument value (Go stores these in an interface{}). */
  datatype Val = IntV(i: int) | StrV(s: string)

  /** An option occurrence, or a merged option. `desc` is the position
      of its descriptor in the table, so that equal indices mean the
      same descriptor, as pointer equality does in Go. */
  datatype Opt = Opt(desc: nat, args: seq<Val>)

  /** The kinds of error Parse can report; each carries the option text. */
  datatype Error =
    | NotAnOption                      // a token without a dash given to the dashed-token resolver
    | InvalidFormat                    // a bare "-" or three or more leading dashes
    | Unrecognized(name: string)       // no descriptor has this short or long name
    | MissingArgument(name: string)    // an argument-taking option at the end of the input
    | UnexpectedArgument(name: string) // "--name=value" for an option without argument
    | InvalidArgument(name: string)    // the value does not convert to the option's type

  datatype Result<T> = Ok(value: T) | Err(error: Error)

  /** The outcome of an accessor: Go panics on a type mismatch. */
  datatype Checked<T> = Fine(value: T) | Panic

  predicate TakesArg(d: Desc) {
    d.arg != ArgNone
  }

  /** A name selects a descriptor when it equals its short or its long name. */
  predicate Names(d: Desc, name: string) {
    d.short == name || d.long == name
  }

  /** Every option refers to a descriptor of the table (a non-nil pointer in Go). */
  predicate ValidOpts(descs: seq<Desc>, opts: seq<Opt>) {
    forall i :: 0 <= i < |opts| ==> opts[i].desc < |descs|
  }

  /** Occurrences as parseDashed produces them: one value for an
      argument-taking option, none otherwise. */
  predicate Shaped(descs: seq<Desc>, opts: seq<Opt>) {
    ValidOpts(descs, opts) &&
    forall i :: 0 <= i < |opts| ==>
      (if TakesArg(descs[opts[i].desc]) then |opts[i].args| == 1 else opts[i].args == [])
  }
}
