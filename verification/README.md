# Structured errors with a template registry, in Dafny

This project models the Go package `errors` of geektime007. The package has two parts:

- **Error value** (`error.go`). A record of Status (transport status), Code (a `uint32` classification), Message, Origin (a wrapped cause) and Hint. It has nil-safe accessors, the `Error()`/`String()` rendering `message[status][code]` with an optional ` (origin)`, the Nil predicates, and three derivations. Each derivation builds a fresh record from the receiver: `CloneWithOriginError`, `Format` and `CloneWithHint`.
- **Template registry** (`error.go`, `errors.go`). An append-only map from code to template. `NewError` panics on a duplicate code. Package initialisation registers five built-in templates, and `Nil` is the nil pointer.

The model is purely functional:

- The receiver `*Error` is `ErrorValue.ErrorRef = Option<ErrorRec>`, where `None` is the nil pointer. Every accessor is therefore total.
- `ErrorCode` is the subset type `0 <= c < 2^32`.
- The derivations never mutate their receiver. In the model this holds by construction, because values are immutable; the Go code keeps it by never writing to its receiver.
- The registry is an explicit `map<ErrorCode, ErrorRec>`, passed in and returned. A panic is a `Failure` that carries the conflicting code.
- Go's `%v` of integers is modelled concretely (`Decimal`), together with a parser. Because of the parser, the rendering of a non-Nil error without origin can be shown to determine its message, status and code. It does not determine them in general: every Nil error renders "ok", and an origin's text may itself contain brackets.

Modules, in dependency order: `Wrappers` (Option, Result), `Decimal`, `Causes`, `ErrorValue`, `Registry`, `Catalog`.

Origins come from github.com/pkg/errors, which is not part of this model. A cause is an opaque foreign error (`Causes.Opaque`) wrapped by `Stacked` (`errors.WithStack`) and `Annotated` (`errors.WithMessage`). One behaviour of that library is **assumed, not proved**: wrapping nil yields nil (`Causes.WithStack`, `Causes.WithMessage`). It follows that `CloneWithHint` on an error without origin records the hint only in the Hint field, not in any cause chain.

Two behaviours of the code are easy to get wrong, and the model keeps both as written:

- **Hint fallback.** Only the nil pointer falls back to the message for its hint, giving "ok". A present record returns its stored Hint, and templates store `""` (`Catalog.BuiltinHintIsEmpty`). So a template's hint is empty, not its message.
- **Nil receiver of `CloneWithOriginError`.** Cloning the nil pointer gives a present record with code 0. That record is still Nil and renders as "ok" whatever cause is attached (`ErrorValue.CloneOfNilStaysNil`), so the cause is not visible in the rendering.

## Model

| member | source | states |
|---|---|---|
| ErrorValue.GetCode | error.go:47-53 | the nil receiver has code 0 (ErrorCodeNil); a present record has its stored code |
| ErrorValue.GetStatus | error.go:67-73 | the nil receiver has status 0; a present record has its stored status |
| ErrorValue.GetOrigin | error.go:75-81 | the nil receiver has no origin; a present record has its stored origin, possibly none |
| ErrorValue.GetMessage | error.go:55-65 | code 0 reports "ok" and code 111111 reports "未知错误", whatever Message is stored; any other code reports Message verbatim |
| ErrorValue.GetHint | error.go:83-90 | the nil receiver reports "ok"; a present record reports its stored Hint, even "", with no fallback to Message |
| ErrorValue.IsNil | error.go:114-115 | an error is Nil iff it is the nil pointer or a present record with code 0 |
| ErrorValue.IsNotNil | error.go:117-118 | IsNotNil is exactly the negation of IsNil |
| ErrorValue.Ok | error.go:120-121 | Ok coincides with IsNil: it holds iff the error is the nil pointer or a present record with code 0 |
| ErrorValue.IsNilCharacterised | error.go:114-121 | an error is Nil iff it is the nil pointer or a record with code 0; IsNotNil iff a present record with non-zero code |
| ErrorValue.Render | error.go:92-112 | a Nil error renders exactly "ok"; otherwise it renders message[status][code] using GetMessage, followed by " (origin)" exactly when an origin is present |
| ErrorValue.String | error.go:45 | String renders the same text as Error() |
| Decimal.NatToString | error.go:107 | the `%v` text of a code is a non-empty run of digits with no leading zero, one digit exactly for values below ten |
| Decimal.IntToString | error.go:107 | the `%v` text of a status is an integer text that starts with '-' exactly when the status is negative |
| Decimal.ParseNatToString | error.go:107 | reading back the printed text of a natural number gives that number |
| Decimal.ParseIntToString | error.go:107 | reading back the printed text of an integer gives that integer |
| Decimal.IntToStringInjective | error.go:107 | distinct statuses never print alike |
| ErrorValue.Plain | error.go:107 | the text message[status][code] starts with the message, followed by '[', and ends in ']' |
| ErrorValue.ParsePlain | error.go:107 | the text message[status][code] gives back message, status and code, even when the message itself contains brackets |
| ErrorValue.RenderRoundTrip | error.go:94-107 | for a non-Nil error without origin, the rendering determines the message, status and code the accessors report |
| ErrorValue.RenderWithAttachedOrigin | error.go:105-111 | attaching a cause to a non-Nil error without origin appends " (cause)" to its rendering and leaves the rest of it unchanged |
| Causes.WithStack | error.go:138 | stack-wrapping keeps an absent origin absent, keeps the root cause and adds no message to the chain |
| Causes.WithMessage | error.go:161 | message-wrapping keeps an absent origin absent and keeps the root cause; on a present origin it adds exactly that message, outermost |
| ErrorValue.CloneWithOriginError | error.go:133-141 | the clone is present and copies status, code, message and hint as the receiver reports them; its origin is the given origin stack-wrapped, with the same root cause |
| ErrorValue.FormatAsWritten | error.go:143-152 | the code as written fails exactly on the nil receiver, because it reads e.Hint directly; otherwise the result carries the receiver's stored hint and is the corrected Format's result |
| ErrorValue.Format | error.go:143-152 | the clone copies status, code and hint; its message is the formatted receiver message, and its origin is the receiver's origin re-wrapped with the root cause kept |
| ErrorValue.FormatMatchesAsWritten | error.go:133-164 | the corrected Format agrees with the code as written on every present receiver; only on nil does the code as written panic, where the other two derivations succeed |
| ErrorValue.CloneWithHint | error.go:154-164 | the clone copies status, code and message and has exactly the new hint; its origin keeps the receiver's root cause, and a present origin gains the hint as its outermost message |
| ErrorValue.ClonesKeepMessage | error.go:133-164 | the results of CloneWithOriginError and CloneWithHint report their receiver's message, sentinel overrides included, and CloneWithOriginError keeps the reported hint |
| ErrorValue.CloneOfNilStaysNil | error_test.go:16-18 | cloning the nil pointer with any cause gives a present record that keeps code 0, has message and hint "ok", is still Nil and renders "ok" |
| ErrorValue.Derive | error.go:133-164 | one derivation, with Format as written, panics exactly when it formats the nil receiver; otherwise it yields a present record |
| ErrorValue.DeriveAllFailsIff | error.go:143-152 | a chain of derivations panics exactly when its first step formats the nil receiver; no later step can panic |
| ErrorValue.DeriveAllKeepsClassification | error.go:133-164 | after any chain of derivations that completes, code and status are still those of the original receiver |
| ErrorValue.DeriveAllKeepsMessage | error.go:137-160 | a chain with no formatting step never panics and keeps the reported message |
| ErrorValue.DeriveKeepsCause | error.go:149-161 | one derivation that attaches no new origin keeps the root cause and the absence of an origin, and adds only its own hint to a present chain |
| ErrorValue.DeriveAllKeepsCause | error.go:149-161 | a completed chain that attaches no new origin never drops the cause: the root is kept and an absent origin stays absent |
| ErrorValue.DeriveAllAddsHints | error.go:154-164 | under such a sequence, a present origin gains exactly the attached hints as messages, latest outermost, in front of the ones it had |
| Registry.PanicMessage | error.go:175 | the panic text is "conflicts error code: " followed by the code's decimal text |
| Registry.PanicMessageNamesCode | error.go:175 | the panic text identifies the conflicting code |
| Registry.Template | error.go:178 | a new template has no origin and an empty hint |
| Registry.NewError | error.go:169-182 | NewError panics, naming the code, exactly when the code is already registered; otherwise the registry gains exactly that key, mapped to a template {status, code, message, no origin, ""}, and every other entry is unchanged |
| Registry.TwoRegistrations | error.go:171-182 | two distinct fresh codes both register and each can be retrieved independently; the same code registered twice panics the second time |
| Registry.RegisterAll | errors.go:8-16 | a run of NewError calls yields one template per call, or panics naming the code of one of its calls |
| Registry.RegisterAllSucceedsIff | errors.go:8-16 | a run of NewError calls panics exactly when two of its codes coincide or one is already registered |
| Registry.RegisterAllResult | errors.go:8-16 | a successful run adds exactly its codes, leaves earlier entries untouched, and registers the i-th definition's template under its code |
| Catalog.Initialise | errors.go:8-16 | package initialisation never panics and leaves the registry holding exactly codes 111111, 1, 2, 3 and 4 |
| Catalog.NilIsAbsent | errors.go:10 | Nil is the nil pointer: it is Nil and Ok, has code 0, status 0, no origin, message and hint "ok", and renders "ok" |
| Catalog.InitialiseSucceeds | errors.go:11-15 | initialisation never panics; the registry then holds exactly codes 111111, 1, 2, 3 and 4, never 0, and each template has its listed status and message, no origin and an empty hint |
| Catalog.ReRegistrationPanics | errors.go:11-15 | after initialisation, registering any built-in code again panics with that code |
| Catalog.BuiltinRendering | errors.go:11-15 | each built-in template renders as message[status][code] with its own message, status and code, whatever its origin printer |
| Catalog.BadFormatRendering | errors.go:12 | BadFormat renders exactly as 格式错误[400][1] |
| Catalog.BuiltinHintIsEmpty | error.go:84-90 | the hint of every one of the five built-in templates is "", although none of their messages is empty |

## Left out

- `fmt.Sprintf` substitution in `Format` (error.go:148) is a foreign formatting engine. `Format` takes the formatting, with its arguments fixed, as a function `sprintf` of the message.
- The internals of `errors.WithStack` and `errors.WithMessage` (error.go:138, 149, 161) are left out because pkg/errors is not part of this model. They are the constructors `Stacked` and `Annotated`, plus the stated assumption that wrapping nil yields nil.
- How an origin prints under `%v` (error.go:111) belongs to the foreign error. `Render` and `String` take it as a parameter `show`.
- Pointer identity is left out. In Go, `NewError` stores and returns one shared `*Error` (error.go:178-181), so the registry entry and the package variable alias each other, and callers may write to its exported fields. The model uses immutable values, so it states nothing about aliasing or about callers writing to those fields.
- Go strings are byte strings, while a Dafny `string` is a sequence of Unicode scalar values, so a message that is not valid UTF-8 cannot be represented and `ErrorValue.ParsePlain` speaks only of valid text. No behaviour is lost: the code only concatenates strings, and '[' never occurs inside a multi-byte UTF-8 sequence.
- JSON struct tags (error.go:34-42) are serialisation metadata with no logic.
- Go's global registry variable, initialisation order and concurrent use are left out. The registry is an explicit value, written only by the initialisation sequence.
- Status is Go's `int`. It is modelled as an unbounded integer, so the 64-bit width is left out, as no operation does arithmetic on it.
- The `util.MustT` test helper of error_test.go is left out. Its assertions appear as `Catalog.NilIsAbsent` and `ErrorValue.CloneOfNilStaysNil`.

## Findings

| source | as written | input that shows it | evidently intended | confidence | as-written member | corrected member |
|---|---|---|---|---|---|---|
| error.go:150 | `Format` reads the hint as `e.Hint`, a field access on the receiver | `Nil.Format("x")`: a nil pointer dereference panic, whereas `Nil.CloneWithOriginError(nil)` and `Nil.CloneWithHint("x")` succeed | read the hint through `e.GetHint()`, like the other derivations, so that every method is safe on the nil receiver | medium, not executed | ErrorValue.FormatAsWritten | ErrorValue.Format |

Chains of derivations (`ErrorValue.Derive`, `ErrorValue.DeriveAll`) use `Format` as written, so they panic where the Go code does.
