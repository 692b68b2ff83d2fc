/** Origin causes. The origin of an error is a foreign Go `error` that the
    package only ever wraps through `errors.WithStack` and `errors.WithMessage`
    of github.com/pkg/errors. Neither the foreign error nor the stack record is
    visible, so both are opaque here; what the model relies on is the shape of
    the wrapping and one stated assumption about nil, below. */
module Causes {
  import opened Wrappers

  /** A non-nil cause chain: an opaque foreign error at the bottom, wrapped by
      stack annotations and explanatory messages. */
  datatype Cause =
    | Opaque(id: nat)
    | Stacked(inner: Cause)
    | Annotated(inner: Cause, note: string)

  /** The foreign error the package was handed, at the bottom of a chain. */
  function Root(c: Cause): nat
  {
    match c
    case Opaque(id) => id
    case Stacked(inner) => Root(inner)
    case Annotated(inner, _) => Root(inner)
  }

  /** The explanatory messages of a chain, outermost first. */
  function Notes(c: Cause): seq<string>
  {
    match c
    case Opaque(_) => []
    case Stacked(inner) => Notes(inner)
    case Annotated(inner, note) => [note] + Notes(inner)
  }

  function RootOf(o: Option<Cause>): Option<nat>
  {
    if o.None? then None else Some(Root(o.value))
  }

  function NotesOf(o: Option<Cause>): seq<string>
  {
    if o.None? then [] else Notes(o.value)
  }

  /** `errors.WithStack`. ASSUMPTION (pkg/errors is not part of this model):
      wrapping nil yields nil. */
  function WithStack(o: Option<Cause>): (r: Option<Cause>)
    ensures r.None? <==> o.None?
    ensures RootOf(r) == RootOf(o)
    ensures NotesOf(r) == NotesOf(o)
  {
    match o
    case None => None
    case Some(c) => Some(Stacked(c))
  }

  /** `errors.WithMessage`. ASSUMPTION (pkg/errors is not part of this model):
      wrapping nil yields nil, so the message is dropped. */
  function WithMessage(o: Option<Cause>, msg: string): (r: Option<Cause>)
    ensures r.None? <==> o.None?
    ensures RootOf(r) == RootOf(o)
    ensures o.Some? ==> NotesOf(r) == [msg] + NotesOf(o)
  {
    match o
    case None => None
    case Some(c) => Some(Annotated(c, msg))
  }
}
