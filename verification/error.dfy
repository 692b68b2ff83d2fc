/** The error value of error.go: a record of Status, Code, Message, Origin and
    Hint, reached through a pointer that may be nil. Every method of the Go type
    has a pointer receiver and most of them are safe on a nil receiver; here the
    receiver is an `ErrorRef`, and `None` is the nil pointer, so every accessor
    is total. Values are immutable: a derivation builds a fresh record and the
    receiver, being a value, cannot change. */
module ErrorValue {
  import opened Wrappers
  import opened Decimal
  import opened Causes

  /** Go's `ErrorCode uint32`. */
  type ErrorCode = c: int | 0 <= c < 0x1_0000_0000

  const CodeNil: ErrorCode := 0
  const CodeBadFormat: ErrorCode := 1
  const CodeRunCommandError: ErrorCode := 2
  const CodeTimeout: ErrorCode := 3
  const CodeUnimplemented: ErrorCode := 4
  const CodeUnknown: ErrorCode := 111111

  /** Message reported for the Nil code. */
  const OkText: string := "ok"
  /** Message reported for the Unknown code ("unknown error"). */
  const UnknownText: string := "未知错误"

  datatype ErrorRec = ErrorRec(
    status: int,
    code: ErrorCode,
    message: string,
    origin: Option<Cause>,
    hint: string)

  /** A `*Error`: `None` is the nil pointer, the "no error" value. */
  type ErrorRef = Option<ErrorRec>

  // ---------------------------------------------------------------- accessors

  function GetCode(e: ErrorRef): (c: ErrorCode)
    ensures e.None? ==> c == CodeNil
    ensures e.Some? ==> c == e.value.code
  {
    match e
    case None => CodeNil
    case Some(r) => r.code
  }

  function GetStatus(e: ErrorRef): (s: int)
    ensures e.None? ==> s == 0
    ensures e.Some? ==> s == e.value.status
  {
    match e
    case None => 0
    case Some(r) => r.status
  }

  function GetOrigin(e: ErrorRef): (o: Option<Cause>)
    ensures e.None? ==> o.None?
    ensures e.Some? ==> o == e.value.origin
  {
    match e
    case None => None
    case Some(r) => r.origin
  }

  /** The two sentinel codes override whatever Message is stored. */
  function GetMessage(e: ErrorRef): (m: string)
    ensures GetCode(e) == CodeNil ==> m == OkText
    ensures GetCode(e) == CodeUnknown ==> m == UnknownText
    ensures GetCode(e) != CodeNil && GetCode(e) != CodeUnknown ==> e.Some? && m == e.value.message
  {
    var code := GetCode(e);
    if code == CodeNil then OkText
    else if code == CodeUnknown then UnknownText
    else e.value.message
  }

  /** Falls back to the message only for the nil pointer; a present record
      answers its stored Hint, even when that is empty. */
  function GetHint(e: ErrorRef): (h: string)
    ensures e.None? ==> h == OkText
    ensures e.Some? ==> h == e.value.hint
  {
    match e
    case None => GetMessage(e)
    case Some(r) => r.hint
  }

  // ---------------------------------------------------------------- predicates

  function IsNil(e: ErrorRef): (b: bool)
    ensures b <==> (e.None? || e.value.code == CodeNil)
  {
    GetCode(e) == CodeNil
  }

  function IsNotNil(e: ErrorRef): (b: bool)
    ensures b <==> !IsNil(e)
  {
    GetCode(e) != CodeNil
  }

  function Ok(e: ErrorRef): (b: bool)
    ensures b <==> IsNil(e)
    ensures b <==> (e.None? || e.value.code == CodeNil)
  {
    IsNil(e)
  }

  /** Nil-ness is a property of the code, not of the pointer: a present record
      whose code is 0 is Nil too. */
  lemma IsNilCharacterised(e: ErrorRef)
    ensures IsNil(e) <==> (e.None? || e.value.code == CodeNil)
    ensures IsNotNil(e) <==> (e.Some? && e.value.code != CodeNil)
    ensures Ok(e) == IsNil(e)
  {
  }

  // ---------------------------------------------------------------- rendering

  /** The "message[status][code]" part of the rendering: the message comes
      first and the text ends in ']'; `ParsePlain` shows the rest of it gives
      back status and code. */
  function Plain(message: string, status: int, code: ErrorCode): (s: string)
    ensures |s| >= |message| + 6 && s[..|message|] == message
    ensures s[|message|] == '[' && s[|s| - 1] == ']'
  {
    message + "[" + IntToString(status) + "][" + NatToString(code) + "]"
  }

  /** `Error()`. The origin is printed with `%v`, which is up to the foreign
      error; `show` stands for it. */
  function Render(e: ErrorRef, show: Cause -> string): (s: string)
    ensures IsNil(e) ==> s == OkText
    ensures !IsNil(e) && GetOrigin(e).None? ==>
      s == Plain(GetMessage(e), GetStatus(e), GetCode(e))
    ensures !IsNil(e) && GetOrigin(e).Some? ==>
      s == Plain(GetMessage(e), GetStatus(e), GetCode(e)) + " (" + show(GetOrigin(e).value) + ")"
  {
    var status := GetStatus(e);
    var code := GetCode(e);
    var origin := GetOrigin(e);
    var message := GetMessage(e);
    if code == CodeNil then OkText
    else if origin.None? then Plain(message, status, code)
    else Plain(message, status, code) + " (" + show(origin.value) + ")"
  }

  /** `String()` delegates to `Error()`. */
  function String(e: ErrorRef, show: Cause -> string): (s: string)
    ensures s == Render(e, show)
  {
    Render(e, show)
  }

  // ---------------------------------------------------------------- parsing the rendering

  /** The three fields a rendering without origin carries. */
  datatype Rendered = Rendered(message: string, status: int, code: nat)

  /** Position of the last `c` in `s`. */
  function LastIndexOf(s: string, c: char): (r: Option<nat>)
    ensures r.None? ==> forall i :: 0 <= i < |s| ==> s[i] != c
    ensures r.Some? ==> r.value < |s| && s[r.value] == c
    ensures r.Some? ==> forall i :: r.value < i < |s| ==> s[i] != c
    decreases |s|
  {
    if |s| == 0 then None
    else if s[|s| - 1] == c then Some(|s| - 1)
    else LastIndexOf(s[..|s| - 1], c)
  }

  /** Reads "message[status][code]" from the right, so that brackets inside
      the message do not confuse it. */
  function ParseRendered(s: string): Option<Rendered>
  {
    if |s| == 0 || s[|s| - 1] != ']' then None
    else
      var body := s[..|s| - 1];
      match LastIndexOf(body, '[')
      case None => None
      case Some(j) =>
        var codeText := body[j + 1..];
        var head := body[..j];
        if !IsNatText(codeText) || |head| == 0 || head[|head| - 1] != ']' then None
        else
          var head' := head[..|head| - 1];
          match LastIndexOf(head', '[')
          case None => None
          case Some(k) =>
            var statusText := head'[k + 1..];
            if !IsIntText(statusText) then None
            else Some(Rendered(head'[..k], ParseInt(statusText), ParseNat(codeText)))
  }

  lemma {:induction false} LastIndexOfSplit(a: string, c: char, b: string)
    requires forall i :: 0 <= i < |b| ==> b[i] != c
    ensures LastIndexOf(a + [c] + b, c) == Some(|a|)
    decreases |b|
  {
    var s := a + [c] + b;
    if |b| == 0 {
      assert s[|s| - 1] == c;
    } else {
      var b' := b[..|b| - 1];
      assert s[|s| - 1] == b[|b| - 1] != c;
      assert s[..|s| - 1] == a + [c] + b';
      LastIndexOfSplit(a, c, b');
    }
  }

  lemma DigitsHaveNoBrackets(s: string)
    requires IsIntText(s)
    ensures forall i :: 0 <= i < |s| ==> s[i] != '[' && s[i] != ']'
  {
    if !IsNatText(s) {
      assert forall i :: 1 <= i < |s| ==> s[i] == s[1..][i - 1];
    }
  }

  /** The rendering of an error without origin determines its message, status
      and code: the shape "message[status][code]" is unambiguous. */
  lemma {:induction false} ParsePlain(message: string, status: int, code: ErrorCode)
    ensures ParseRendered(Plain(message, status, code)) == Some(Rendered(message, status, code))
  {
    var st := IntToString(status);
    var ct := NatToString(code);
    var s := Plain(message, status, code);
    var head' := message + "[" + st;
    var head := head' + "]";
    var body := head + "[" + ct;
    assert s == body + "]";
    assert s[..|s| - 1] == body;
    DigitsHaveNoBrackets(ct);
    LastIndexOfSplit(head, '[', ct);
    assert body[|head| + 1..] == ct;
    assert body[..|head|] == head;
    assert head[..|head| - 1] == head';
    DigitsHaveNoBrackets(st);
    LastIndexOfSplit(message, '[', st);
    assert head'[|message| + 1..] == st;
    assert head'[..|message|] == message;
    ParseIntToString(status);
    ParseNatToString(code);
  }

  /** Round trip of `Error()`: for a non-Nil error without origin the rendered
      text gives back the message, status and code the accessors report. */
  lemma RenderRoundTrip(e: ErrorRef, show: Cause -> string)
    requires !IsNil(e) && GetOrigin(e).None?
    ensures ParseRendered(Render(e, show)) == Some(Rendered(GetMessage(e), GetStatus(e), GetCode(e)))
  {
    ParsePlain(GetMessage(e), GetStatus(e), GetCode(e));
  }

  // ---------------------------------------------------------------- derivations

  /** `CloneWithOriginError`: a fresh record with the receiver's classification
      and the origin wrapped with a stack annotation. */
  function CloneWithOriginError(e: ErrorRef, origin: Option<Cause>): (r: ErrorRef)
    ensures r.Some?
    ensures r.value.status == GetStatus(e) && r.value.code == GetCode(e)
    ensures r.value.message == GetMessage(e) && r.value.hint == GetHint(e)
    ensures r.value.origin == WithStack(origin)
    ensures RootOf(GetOrigin(r)) == RootOf(origin)
  {
    Some(ErrorRec(GetStatus(e), GetCode(e), GetMessage(e), WithStack(origin), GetHint(e)))
  }

  /** Why `Format` as written can abort. */
  datatype Fault = NilDereference

  /** `Format` as written: the message is the receiver's message formatted
      with the arguments by `fmt.Sprintf` (`sprintf` stands for that formatting
      with the arguments fixed), but the hint is read as `e.Hint`, a field
      access that panics on the nil receiver. */
  function FormatAsWritten(e: ErrorRef, sprintf: string -> string): (r: Result<ErrorRef, Fault>)
    ensures r.Failure? <==> e.None?
    ensures r.Success? ==> r.value.Some? && r.value.value.hint == e.value.hint
    ensures r.Success? ==> r.value == Format(e, sprintf)
  {
    match e
    case None => Failure(NilDereference)
    case Some(rec) =>
      Success(Some(ErrorRec(GetStatus(e), GetCode(e), sprintf(GetMessage(e)), WithStack(GetOrigin(e)), rec.hint)))
  }

  /** `Format` with the hint read through `GetHint`, like the other two
      derivations, so that it is total: the classification is kept, the
      message is the formatted one and the existing origin is re-wrapped,
      never dropped. */
  function Format(e: ErrorRef, sprintf: string -> string): (r: ErrorRef)
    ensures r.Some?
    ensures r.value.status == GetStatus(e) && r.value.code == GetCode(e)
    ensures r.value.message == sprintf(GetMessage(e)) && r.value.hint == GetHint(e)
    ensures r.value.origin == WithStack(GetOrigin(e))
    ensures RootOf(GetOrigin(r)) == RootOf(GetOrigin(e))
  {
    Some(ErrorRec(GetStatus(e), GetCode(e), sprintf(GetMessage(e)), WithStack(GetOrigin(e)), GetHint(e)))
  }

  /** The corrected `Format` only differs from the code as written on the nil
      receiver, where the code as written panics although the other two
      derivations accept it. */
  lemma FormatMatchesAsWritten(e: ErrorRef, sprintf: string -> string, origin: Option<Cause>, hint: string)
    ensures e.Some? ==> FormatAsWritten(e, sprintf) == Success(Format(e, sprintf))
    ensures FormatAsWritten(None, sprintf) == Failure(NilDereference)
    ensures CloneWithOriginError(None, origin).Some? && CloneWithHint(None, hint).Some?
    ensures Format(None, sprintf).Some? && GetCode(Format(None, sprintf)) == CodeNil
  {
  }

  /** `CloneWithHint`: the hint is stored and also annotates the existing
      origin, which is therefore kept, never replaced. */
  function CloneWithHint(e: ErrorRef, hint: string): (r: ErrorRef)
    ensures r.Some?
    ensures r.value.status == GetStatus(e) && r.value.code == GetCode(e)
    ensures r.value.message == GetMessage(e) && GetHint(r) == hint
    ensures r.value.origin == WithMessage(GetOrigin(e), hint)
    ensures RootOf(GetOrigin(r)) == RootOf(GetOrigin(e))
    ensures GetOrigin(e).Some? ==> NotesOf(GetOrigin(r)) == [hint] + NotesOf(GetOrigin(e))
  {
    Some(ErrorRec(GetStatus(e), GetCode(e), GetMessage(e), WithMessage(GetOrigin(e), hint), hint))
  }

  /** CloneWithOriginError and CloneWithHint copy the message through
      `GetMessage`, so their results report exactly what the receiver reports,
      sentinel overrides included. (`Format` replaces the message.) */
  lemma ClonesKeepMessage(e: ErrorRef, origin: Option<Cause>, hint: string)
    ensures GetMessage(CloneWithOriginError(e, origin)) == GetMessage(e)
    ensures GetMessage(CloneWithHint(e, hint)) == GetMessage(e)
    ensures GetHint(CloneWithOriginError(e, origin)) == GetHint(e)
  {
  }

  /** Cloning the nil pointer gives a present record that is still Nil: code 0,
      message and hint "ok", rendered "ok" whatever cause was attached. */
  lemma CloneOfNilStaysNil(origin: Option<Cause>, show: Cause -> string)
    ensures CloneWithOriginError(None, origin).Some?
    ensures GetCode(CloneWithOriginError(None, origin)) == GetCode(None)
    ensures IsNil(CloneWithOriginError(None, origin))
    ensures CloneWithOriginError(None, origin).value.message == OkText
    ensures CloneWithOriginError(None, origin).value.hint == OkText
    ensures Render(CloneWithOriginError(None, origin), show) == OkText
  {
  }

  /** Attaching a cause to a non-Nil error without origin appends
      " (cause)" to its rendering and changes nothing else in it. */
  lemma RenderWithAttachedOrigin(e: ErrorRef, c: Cause, show: Cause -> string)
    requires !IsNil(e) && GetOrigin(e).None?
    ensures Render(CloneWithOriginError(e, Some(c)), show)
         == Render(e, show) + " (" + show(Stacked(c)) + ")"
  {
  }

  // ---------------------------------------------------------------- chains of derivations

  /** One call-site derivation. */
  datatype Derivation =
    | AttachOrigin(origin: Option<Cause>)
    | AttachHint(hint: string)
    | Reformat(sprintf: string -> string)

  /** One derivation, `Format` as written: it panics exactly when a nil
      receiver is formatted, and otherwise yields a present record. */
  function Derive(e: ErrorRef, d: Derivation): (r: Result<ErrorRef, Fault>)
    ensures r.Failure? <==> d.Reformat? && e.None?
    ensures r.Success? ==> r.value.Some?
  {
    match d
    case AttachOrigin(origin) => Success(CloneWithOriginError(e, origin))
    case AttachHint(hint) => Success(CloneWithHint(e, hint))
    case Reformat(sprintf) => FormatAsWritten(e, sprintf)
  }

  /** Applies the derivations left to right, each to the previous result,
      stopping at the first panic. */
  function DeriveAll(e: ErrorRef, ds: seq<Derivation>): Result<ErrorRef, Fault>
    decreases |ds|
  {
    if |ds| == 0 then Success(e)
    else
      match Derive(e, ds[0])
      case Failure(f) => Failure(f)
      case Success(e') => DeriveAll(e', ds[1..])
  }

  /** A chain panics exactly when its first step formats the nil receiver:
      every step yields a present record, so no later step can panic. */
  lemma {:induction false} DeriveAllFailsIff(e: ErrorRef, ds: seq<Derivation>)
    ensures DeriveAll(e, ds).Failure? <==> |ds| > 0 && ds[0].Reformat? && e.None?
    decreases |ds|
  {
    if |ds| > 0 && Derive(e, ds[0]).Success? {
      var e' := Derive(e, ds[0]).value;
      DeriveAllFailsIff(e', ds[1..]);
    }
  }

  /** A completed chain is its first step followed by the rest. */
  lemma DeriveAllStep(e: ErrorRef, ds: seq<Derivation>)
    requires |ds| > 0 && DeriveAll(e, ds).Success?
    ensures Derive(e, ds[0]).Success?
    ensures DeriveAll(e, ds) == DeriveAll(Derive(e, ds[0]).value, ds[1..])
  {
  }

  /** The hints one derivation attaches. */
  function OwnHint(d: Derivation): seq<string>
  {
    if d.AttachHint? then [d.hint] else []
  }

  /** The hints a chain attaches, latest first. */
  function HintsOf(ds: seq<Derivation>): seq<string>
    decreases |ds|
  {
    if |ds| == 0 then []
    else HintsOf(ds[1..]) + OwnHint(ds[0])
  }

  predicate AttachesNoOrigin(ds: seq<Derivation>)
  {
    forall i :: 0 <= i < |ds| ==> !ds[i].AttachOrigin?
  }

  predicate Reformats(ds: seq<Derivation>)
  {
    exists i :: 0 <= i < |ds| && ds[i].Reformat?
  }

  /** However many derivations a call site applies, the classification of the
      template survives: the code and status are those of the receiver. */
  lemma {:induction false} DeriveAllKeepsClassification(e: ErrorRef, ds: seq<Derivation>)
    requires DeriveAll(e, ds).Success?
    ensures GetCode(DeriveAll(e, ds).value) == GetCode(e)
    ensures GetStatus(DeriveAll(e, ds).value) == GetStatus(e)
    decreases |ds|
  {
    if |ds| > 0 {
      DeriveAllStep(e, ds);
      DeriveAllKeepsClassification(Derive(e, ds[0]).value, ds[1..]);
    }
  }

  /** Without a formatting step a chain cannot panic, and the message it
      reports stays the receiver's. */
  lemma {:induction false} DeriveAllKeepsMessage(e: ErrorRef, ds: seq<Derivation>)
    requires !Reformats(ds)
    ensures DeriveAll(e, ds).Success?
    ensures GetMessage(DeriveAll(e, ds).value) == GetMessage(e)
    decreases |ds|
  {
    if |ds| > 0 {
      assert !ds[0].Reformat?;
      assert !Reformats(ds[1..]) by {
        forall i | 0 <= i < |ds[1..]|
          ensures !ds[1..][i].Reformat?
        {
          assert ds[1..][i] == ds[i + 1];
        }
      }
      DeriveAllKeepsMessage(Derive(e, ds[0]).value, ds[1..]);
    }
  }

  /** One derivation that attaches no new origin keeps the cause. */
  lemma DeriveKeepsCause(e: ErrorRef, d: Derivation)
    requires !d.AttachOrigin? && Derive(e, d).Success?
    ensures RootOf(GetOrigin(Derive(e, d).value)) == RootOf(GetOrigin(e))
    ensures GetOrigin(Derive(e, d).value).None? <==> GetOrigin(e).None?
    ensures GetOrigin(e).Some? ==>
      NotesOf(GetOrigin(Derive(e, d).value)) == OwnHint(d) + NotesOf(GetOrigin(e))
  {
  }

  lemma AttachesNoOriginTail(ds: seq<Derivation>)
    requires |ds| > 0 && AttachesNoOrigin(ds)
    ensures !ds[0].AttachOrigin? && AttachesNoOrigin(ds[1..])
  {
    forall i | 0 <= i < |ds[1..]|
      ensures !ds[1..][i].AttachOrigin?
    {
      assert ds[1..][i] == ds[i + 1];
    }
  }

  /** Formatting and hinting never drop a cause: unless a new origin is
      attached, the root cause of a completed chain is the receiver's and an
      absent origin stays absent. */
  lemma {:induction false} DeriveAllKeepsCause(e: ErrorRef, ds: seq<Derivation>)
    requires AttachesNoOrigin(ds) && DeriveAll(e, ds).Success?
    ensures RootOf(GetOrigin(DeriveAll(e, ds).value)) == RootOf(GetOrigin(e))
    ensures GetOrigin(DeriveAll(e, ds).value).None? <==> GetOrigin(e).None?
    decreases |ds|
  {
    if |ds| > 0 {
      DeriveAllStep(e, ds);
      var e' := Derive(e, ds[0]).value;
      AttachesNoOriginTail(ds);
      DeriveKeepsCause(e, ds[0]);
      DeriveAllKeepsCause(e', ds[1..]);
    }
  }

  /** Unless a new origin is attached, a present origin gains exactly the
      attached hints as explanatory messages, latest outermost, in front of
      the messages it already had. */
  lemma {:induction false} DeriveAllAddsHints(e: ErrorRef, ds: seq<Derivation>)
    requires AttachesNoOrigin(ds) && GetOrigin(e).Some? && DeriveAll(e, ds).Success?
    ensures NotesOf(GetOrigin(DeriveAll(e, ds).value)) == HintsOf(ds) + NotesOf(GetOrigin(e))
    decreases |ds|
  {
    if |ds| > 0 {
      DeriveAllStep(e, ds);
      AttachesNoOriginTail(ds);
      var e' := Derive(e, ds[0]).value;
      DeriveKeepsCause(e, ds[0]);
      DeriveAllAddsHints(e', ds[1..]);
      var own := OwnHint(ds[0]);
      var rest := HintsOf(ds[1..]);
      var notes := NotesOf(GetOrigin(e));
      assert NotesOf(GetOrigin(e')) == own + notes;
      assert HintsOf(ds) == rest + own;
      assert NotesOf(GetOrigin(DeriveAll(e, ds).value)) == rest + (own + notes);
      assert rest + (own + notes) == (rest + own) + notes;
    }
  }
}
