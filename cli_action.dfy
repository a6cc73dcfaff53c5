/**
  The command-line action: which action the converter was asked to run, built from
  the action name and the parsed command-line arguments.
*/
module CLI {
  import opened Wrappers

  datatype CLIAction =
    | Help
    | ConvertLocalization(androidFileName: string, outputPath: Option<string>)

  /** The errors `CLIAction.init` throws. */
  datatype CLIError =
    | UnknownAction(actionName: string)
    | MissingArgument(actionName: string, missingArgument: string)

  /** The hand-written `==`: two actions are equal when they are the same action with the same arguments. */
  function ActionsEqual(lhs: CLIAction, rhs: CLIAction): (r: bool)
    ensures r <==> lhs == rhs
  {
    match (lhs, rhs)
    case (Help, Help) => true
    case (ConvertLocalization(leftFile, leftOutput), ConvertLocalization(rightFile, rightOutput)) =>
      leftFile == rightFile && leftOutput == rightOutput
    case _ => false
  }

  /**
    `init(actionName:anonymousArguments:namedArguments:)`: `help` is always accepted;
    `convertLocalization` takes its Android file from the first anonymous argument
    and its output path from the named argument `output`; any other name is refused.
  */
  function ParseAction(name: string, anonymousArguments: seq<string>, namedArguments: map<string, string>)
    : (r: Result<CLIAction, CLIError>)
    ensures r.Success? <==> name == "help" || (name == "convertLocalization" && |anonymousArguments| > 0)
    ensures r.Success? && r.value.Help? <==> name == "help"
    ensures r.Success? && r.value.ConvertLocalization? ==>
      && r.value.androidFileName == anonymousArguments[0]
      && (r.value.outputPath.Some? <==> "output" in namedArguments)
      && (r.value.outputPath.Some? ==> r.value.outputPath.value == namedArguments["output"])
    ensures r.Failure? && name == "convertLocalization" ==>
      r.error == MissingArgument("convertLocalization", "source android filename")
    ensures r.Failure? && name != "convertLocalization" ==> r.error == UnknownAction(name)
  {
    if name == "help" then Success(Help)
    else if name == "convertLocalization" then
      if |anonymousArguments| == 0 then
        Failure(MissingArgument(name, "source android filename"))
      else
        Success(ConvertLocalization(anonymousArguments[0], Lookup(namedArguments, "output")))
    else Failure(UnknownAction(name))
  }

  /** Anonymous arguments after the first one do not change the action. */
  lemma ExtraAnonymousArgumentsIgnored(name: string, first: string, rest: seq<string>, others: seq<string>,
                                       namedArguments: map<string, string>)
    ensures ParseAction(name, [first] + rest, namedArguments) == ParseAction(name, [first] + others, namedArguments)
  {
  }

  /** Of the named arguments, only `output` is looked at. */
  lemma OnlyOutputNamedArgumentUsed(name: string, anonymousArguments: seq<string>,
                                    named: map<string, string>, otherNamed: map<string, string>)
    requires ("output" in named <==> "output" in otherNamed)
    requires "output" in named ==> named["output"] == otherNamed["output"]
    ensures ParseAction(name, anonymousArguments, named) == ParseAction(name, anonymousArguments, otherNamed)
  {
  }

  /** An unknown action name is refused with exactly that name. */
  lemma UnknownActionExample()
    ensures ParseAction("toto", [], map[]) == Failure(UnknownAction("toto"))
  {
  }

  /** `help` without arguments gives the help action. */
  lemma HelpActionExample()
    ensures ParseAction("help", [], map[]).Success?
    ensures ActionsEqual(Help, ParseAction("help", [], map[]).value)
  {
  }
}
