/** The process-wide template registry of error.go: an append-only map from
    code to template, written by `NewError`. A duplicate code is a programming
    error the Go code turns into a panic; here it is a `Failure` carrying the
    conflicting code. The map is passed and returned explicitly instead of
    living in a global variable. */
module Registry {
  import opened Wrappers
  import opened Decimal
  import opened ErrorValue

  type Registry = map<ErrorCode, ErrorRec>

  /** The panic raised when a code is registered twice. */
  datatype Panic = ConflictingCode(code: ErrorCode)

  const ConflictPrefix: string := "conflicts error code: "

  /** The text the panic carries. */
  function PanicMessage(p: Panic): (s: string)
    ensures |s| > |ConflictPrefix| && s[..|ConflictPrefix|] == ConflictPrefix
    ensures IsNatText(s[|ConflictPrefix|..])
  {
    var s := ConflictPrefix + NatToString(p.code);
    assert s[|ConflictPrefix|..] == NatToString(p.code);
    s
  }

  /** The panic text identifies the conflicting code. */
  lemma PanicMessageNamesCode(p: Panic)
    ensures ParseNat(PanicMessage(p)[|ConflictPrefix|..]) == p.code
  {
    assert PanicMessage(p)[|ConflictPrefix|..] == NatToString(p.code);
    ParseNatToString(p.code);
  }

  /** The template `NewError` creates: no origin, empty hint. */
  function Template(code: ErrorCode, status: int, message: string): (t: ErrorRec)
    ensures t.origin.None? && t.hint == ""
  {
    ErrorRec(status, code, message, None, "")
  }

  /** `NewError`: panics if `code` is taken, otherwise registers and returns a
      fresh template under exactly that code, leaving every other entry alone. */
  function NewError(reg: Registry, code: ErrorCode, status: int, message: string)
    : (r: Result<(Registry, ErrorRec), Panic>)
    ensures r.Failure? <==> code in reg
    ensures r.Failure? ==> r.error == ConflictingCode(code)
    ensures r.Success? ==>
      var (reg', t) := r.value;
      && GetCode(Some(t)) == code && GetStatus(Some(t)) == status
      && t.message == message && GetOrigin(Some(t)).None? && GetHint(Some(t)) == ""
      && reg'.Keys == reg.Keys + {code}
      && reg'[code] == t
      && (forall k :: k in reg ==> reg'[k] == reg[k])
  {
    if code in reg then Failure(ConflictingCode(code))
    else
      var e := Template(code, status, message);
      Success((reg[code := e], e))
  }

  /** Registering two distinct fresh codes one after the other succeeds twice,
      and each template can be looked up under its own code afterwards;
      registering the same code twice panics the second time. */
  lemma TwoRegistrations(reg: Registry, c1: ErrorCode, s1: int, m1: string,
                         c2: ErrorCode, s2: int, m2: string)
    requires c1 !in reg && c2 !in reg
    ensures NewError(reg, c1, s1, m1).Success?
    ensures c1 != c2 ==>
      var (reg1, t1) := NewError(reg, c1, s1, m1).value;
      && NewError(reg1, c2, s2, m2).Success?
      && var (reg2, t2) := NewError(reg1, c2, s2, m2).value;
      && reg2[c1] == t1 && reg2[c2] == t2
    ensures c1 == c2 ==>
      NewError(NewError(reg, c1, s1, m1).value.0, c2, s2, m2) == Failure(ConflictingCode(c1))
  {
  }

  // ---------------------------------------------------------------- a sequence of registrations

  /** The arguments of one `NewError` call. */
  datatype Definition = Definition(code: ErrorCode, status: int, message: string)

  predicate DistinctCodes(defs: seq<Definition>)
  {
    forall i, j :: 0 <= i < j < |defs| ==> defs[i].code != defs[j].code
  }

  predicate AllFresh(reg: Registry, defs: seq<Definition>)
  {
    forall i :: 0 <= i < |defs| ==> defs[i].code !in reg
  }

  function CodesOf(defs: seq<Definition>): set<ErrorCode>
  {
    set i | 0 <= i < |defs| :: defs[i].code
  }

  /** `NewError` called for each definition in order, stopping at the first
      panic; on success returns the final registry and the templates in order. */
  function RegisterAll(reg: Registry, defs: seq<Definition>)
    : (r: Result<(Registry, seq<ErrorRec>), Panic>)
    ensures r.Success? ==> |r.value.1| == |defs|
    ensures r.Failure? ==> exists i :: 0 <= i < |defs| && r.error == ConflictingCode(defs[i].code)
    decreases |defs|
  {
    if |defs| == 0 then Success((reg, []))
    else
      match NewError(reg, defs[0].code, defs[0].status, defs[0].message)
      case Failure(p) => Failure(p)
      case Success((reg1, t)) =>
        match RegisterAll(reg1, defs[1..])
        case Failure(p) => Failure(p)
        case Success((reg2, ts)) => Success((reg2, [t] + ts))
  }

  /** A run of registrations panics exactly when two of its codes collide or
      one of them is already registered. */
  lemma {:induction false} RegisterAllSucceedsIff(reg: Registry, defs: seq<Definition>)
    ensures RegisterAll(reg, defs).Success? <==> DistinctCodes(defs) && AllFresh(reg, defs)
    decreases |defs|
  {
    if |defs| > 0 {
      var d := defs[0];
      var rest := defs[1..];
      if d.code in reg {
        assert !AllFresh(reg, defs);
      } else {
        var reg1 := reg[d.code := Template(d.code, d.status, d.message)];
        RegisterAllSucceedsIff(reg1, rest);
        assert DistinctCodes(defs) && AllFresh(reg, defs)
           <==> DistinctCodes(rest) && AllFresh(reg1, rest)
        by {
          if DistinctCodes(defs) && AllFresh(reg, defs) {
            forall i | 0 <= i < |rest|
              ensures rest[i].code !in reg1
            {
              assert rest[i] == defs[i + 1];
            }
            forall i, j | 0 <= i < j < |rest|
              ensures rest[i].code != rest[j].code
            {
              assert rest[i] == defs[i + 1] && rest[j] == defs[j + 1];
            }
          }
          if DistinctCodes(rest) && AllFresh(reg1, rest) {
            forall i, j | 0 <= i < j < |defs|
              ensures defs[i].code != defs[j].code
            {
              assert defs[j] == rest[j - 1];
              if i > 0 {
                assert defs[i] == rest[i - 1];
              }
            }
            forall i | 0 <= i < |defs|
              ensures defs[i].code !in reg
            {
              if i > 0 {
                assert defs[i] == rest[i - 1];
              }
            }
          }
        }
      }
    }
  }

  /** What a successful run leaves behind: the registry grows by exactly the
      defined codes, earlier entries are untouched, and the i-th template
      returned is the i-th definition's, registered under its code. */
  lemma {:induction false} RegisterAllResult(reg: Registry, defs: seq<Definition>)
    requires RegisterAll(reg, defs).Success?
    ensures var (reg', ts) := RegisterAll(reg, defs).value;
      && |ts| == |defs|
      && reg'.Keys == reg.Keys + CodesOf(defs)
      && (forall k :: k in reg ==> reg'[k] == reg[k])
      && (forall i :: 0 <= i < |defs| ==>
            ts[i] == Template(defs[i].code, defs[i].status, defs[i].message)
            && reg'[defs[i].code] == ts[i])
    decreases |defs|
  {
    if |defs| > 0 {
      var d := defs[0];
      var rest := defs[1..];
      var t := Template(d.code, d.status, d.message);
      var reg1 := reg[d.code := t];
      RegisterAllResult(reg1, rest);
      var (reg', ts) := RegisterAll(reg, defs).value;
      var (reg2, ts2) := RegisterAll(reg1, rest).value;
      assert reg' == reg2 && ts == [t] + ts2;
      assert CodesOf(defs) == {d.code} + CodesOf(rest) by {
        forall k | k in CodesOf(defs)
          ensures k in {d.code} + CodesOf(rest)
        {
          var i :| 0 <= i < |defs| && defs[i].code == k;
          if i > 0 {
            assert rest[i - 1] == defs[i];
          }
        }
        forall k | k in CodesOf(rest)
          ensures k in CodesOf(defs)
        {
          var i :| 0 <= i < |rest| && rest[i].code == k;
          assert defs[i + 1] == rest[i];
        }
      }
      forall i | 0 <= i < |defs|
        ensures ts[i] == Template(defs[i].code, defs[i].status, defs[i].message)
        ensures reg'[defs[i].code] == ts[i]
      {
        if i > 0 {
          assert defs[i] == rest[i - 1];
          assert ts[i] == ts2[i - 1];
        }
      }
    }
  }
}
