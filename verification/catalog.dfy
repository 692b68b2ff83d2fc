/** The built-in catalog of errors.go: `Nil` is the nil pointer and five
    templates are registered, in this order, by package initialisation. */
module Catalog {
  import opened Wrappers
  import opened Decimal
  import opened Causes
  import opened ErrorValue
  import opened Registry

  const BadFormatText: string := "格式错误"
  const RunCommandErrorText: string := "执行命令异常"
  const TimeoutText: string := "超时"
  const UnimplementedText: string := "未实现!"

  /** The `NewError` calls of package initialisation, in source order. */
  const BuiltinDefinitions: seq<Definition> := [
    Definition(CodeUnknown, 500, UnknownText),
    Definition(CodeBadFormat, 400, BadFormatText),
    Definition(CodeRunCommandError, 500, RunCommandErrorText),
    Definition(CodeTimeout, 408, TimeoutText),
    Definition(CodeUnimplemented, 404, UnimplementedText)
  ]

  /** `Nil`: never registered, it is the nil pointer itself. */
  const Nil: ErrorRef := None

  /** The package-level variables once initialisation has run. */
  datatype Builtins = Builtins(
    registry: Registry,
    unknown: ErrorRef,
    badFormat: ErrorRef,
    runCommandError: ErrorRef,
    timeout: ErrorRef,
    unimplemented: ErrorRef)

  const BuiltinCodes: set<ErrorCode> :=
    {CodeUnknown, CodeBadFormat, CodeRunCommandError, CodeTimeout, CodeUnimplemented}

  lemma BuiltinCodesDistinct()
    ensures DistinctCodes(BuiltinDefinitions)
    ensures CodesOf(BuiltinDefinitions) == BuiltinCodes
  {
    var defs := BuiltinDefinitions;
    assert defs[0].code == CodeUnknown;
    assert defs[1].code == CodeBadFormat;
    assert defs[2].code == CodeRunCommandError;
    assert defs[3].code == CodeTimeout;
    assert defs[4].code == CodeUnimplemented;
  }

  /** Package initialisation: registers the five built-in templates into an
      empty registry, panicking if any registration does. Their codes are
      distinct, so it never panics, and the registry ends up holding exactly
      the built-in codes. */
  function Initialise(): (r: Result<Builtins, Panic>)
    ensures r.Success?
    ensures r.value.registry.Keys == BuiltinCodes
  {
    BuiltinCodesDistinct();
    RegisterAllSucceedsIff(map[], BuiltinDefinitions);
    RegisterAllResult(map[], BuiltinDefinitions);
    match RegisterAll(map[], BuiltinDefinitions)
    case Failure(p) => Failure(p)
    case Success((reg, ts)) =>
      Success(Builtins(reg, Some(ts[0]), Some(ts[1]), Some(ts[2]), Some(ts[3]), Some(ts[4])))
  }

  /** `Nil` is the nil pointer: it is Nil, has code 0, and renders as "ok". */
  lemma NilIsAbsent(show: Cause -> string)
    ensures Nil.None? && IsNil(Nil) && Ok(Nil) && !IsNotNil(Nil)
    ensures GetCode(Nil) == CodeNil && GetStatus(Nil) == 0 && GetOrigin(Nil).None?
    ensures GetMessage(Nil) == OkText && GetHint(Nil) == OkText
    ensures Render(Nil, show) == OkText
  {
  }

  /** The built-in codes are pairwise distinct, so initialisation never
      panics; afterwards the registry holds exactly those five codes, never 0,
      and each template carries the status and message of its definition with
      no origin and an empty hint. */
  lemma InitialiseSucceeds()
    ensures Initialise().Success?
    ensures var b := Initialise().value;
      && b.registry.Keys == BuiltinCodes
      && CodeNil !in b.registry
      && b.unknown == Some(ErrorRec(500, CodeUnknown, UnknownText, None, ""))
      && b.badFormat == Some(ErrorRec(400, CodeBadFormat, BadFormatText, None, ""))
      && b.runCommandError == Some(ErrorRec(500, CodeRunCommandError, RunCommandErrorText, None, ""))
      && b.timeout == Some(ErrorRec(408, CodeTimeout, TimeoutText, None, ""))
      && b.unimplemented == Some(ErrorRec(404, CodeUnimplemented, UnimplementedText, None, ""))
      && b.registry[CodeUnknown] == b.unknown.value
      && b.registry[CodeBadFormat] == b.badFormat.value
      && b.registry[CodeRunCommandError] == b.runCommandError.value
      && b.registry[CodeTimeout] == b.timeout.value
      && b.registry[CodeUnimplemented] == b.unimplemented.value
  {
    BuiltinCodesDistinct();
    RegisterAllSucceedsIff(map[], BuiltinDefinitions);
    RegisterAllResult(map[], BuiltinDefinitions);
  }

  /** After initialisation every built-in code is taken: registering any of
      them again panics, naming that code. */
  lemma ReRegistrationPanics(code: ErrorCode, status: int, message: string)
    requires code in BuiltinCodes
    ensures Initialise().Success?
    ensures NewError(Initialise().value.registry, code, status, message) == Failure(ConflictingCode(code))
  {
    InitialiseSucceeds();
  }

  /** A built-in template renders as "message[status][code]" with its own
      message, status and code, whatever `show` does, since it has no origin. */
  lemma BuiltinRendering(show: Cause -> string)
    ensures Initialise().Success?
    ensures var b := Initialise().value;
      && Render(b.unknown, show) == Plain(UnknownText, 500, CodeUnknown)
      && Render(b.badFormat, show) == Plain(BadFormatText, 400, CodeBadFormat)
      && Render(b.runCommandError, show) == Plain(RunCommandErrorText, 500, CodeRunCommandError)
      && Render(b.timeout, show) == Plain(TimeoutText, 408, CodeTimeout)
      && Render(b.unimplemented, show) == Plain(UnimplementedText, 404, CodeUnimplemented)
  {
    InitialiseSucceeds();
  }

  lemma BadFormatPlainText()
    ensures Plain(BadFormatText, 400, CodeBadFormat) == "格式错误[400][1]"
  {
    assert NatToString(4) == "4";
    assert NatToString(40) == "40";
    assert IntToString(400) == "400";
    assert NatToString(CodeBadFormat) == "1";
  }

  /** BadFormat, for one, renders as "格式错误[400][1]". */
  lemma BadFormatRendering(show: Cause -> string)
    ensures Initialise().Success?
    ensures Render(Initialise().value.badFormat, show) == "格式错误[400][1]"
  {
    BuiltinRendering(show);
    BadFormatPlainText();
  }

  /** The templates carry an empty hint, and a present record does not fall
      back to its message: every built-in hint is "" although no built-in
      message is. */
  lemma BuiltinHintIsEmpty()
    ensures Initialise().Success?
    ensures var b := Initialise().value;
      && GetHint(b.unknown) == "" && GetMessage(b.unknown) == UnknownText != ""
      && GetHint(b.badFormat) == "" && GetMessage(b.badFormat) == BadFormatText != ""
      && GetHint(b.runCommandError) == "" && GetMessage(b.runCommandError) == RunCommandErrorText != ""
      && GetHint(b.timeout) == "" && GetMessage(b.timeout) == TimeoutText != ""
      && GetHint(b.unimplemented) == "" && GetMessage(b.unimplemented) == UnimplementedText != ""
  {
    InitialiseSucceeds();
  }
}
