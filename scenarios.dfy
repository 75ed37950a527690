/**
  Worked examples of the header's intended use: a function `add` with two
  int members, a function `greet` with a string member, and a clone of `add`.
  The bodies after keyargs_define are user code; `AddBody` stands for the one
  of `add`, `return args.a + args.b;`.
*/
module Scenarios {
  import opened Wrappers
  import opened Mangle
  import opened CDecl
  import opened Generate
  import opened Initializer
  import opened Call

  /** Argument values of the examples. */
  datatype Value = IntVal(i: int) | StrVal(s: string) | NullPtr

  const IntType: TypeExpr := Plain("int")
  const StringType: TypeExpr := Plain("const char *")

  /** Zero initialisation (section 6.7.9 p10): a null pointer for the string
      type, the integer zero for the rest. */
  function CZero(t: TypeExpr): Value
  {
    if t == StringType then NullPtr else IntVal(0)
  }

  const AddFields: seq<Member> := [Member(IntType, "a"), Member(IntType, "b")]
  const GreetFields: seq<Member> := [Member(StringType, "name"), Member(IntType, "times")]

  /** keyargs_declare(int, add, int a; int b;) keyargs_define(add) */
  function AddUnit(): seq<Decl>
  {
    Declare(IntType, "add", AddFields) + [Define("add")]
  }

  /** `return args.a + args.b;` */
  function AddBody(args: seq<Value>): int
    requires |args| == 2 && args[0].IntVal? && args[1].IntVal?
  {
    args[0].i + args[1].i
  }

  lemma {:induction false} ExampleFieldsUnique()
    ensures UniqueNames(AddFields) && UniqueNames(GreetFields)
  {
  }

  lemma {:induction false} AddUnitAccepted()
    ensures Consistent(AddUnit())
  {
    var D := DeclareAs(false, IntType, "add", AddFields);
    DeclareAccepted([], false, IntType, "add", AddFields);
    assert [] + D == D && [] + D + [] == D;
    DefineAccepted([], false, IntType, "add", AddFields, [], false);
  }

  lemma {:induction false} AddCallMeaning(inits: seq<Init<Value>>)
    ensures Evaluate(AddUnit(), KeyargsCall("add", inits), CZero) == Entering(FuncName("add"), Construct(AddFields, inits, CZero))
  {
    AddUnitAccepted();
    assert AddUnit() == [] + DeclareAs(false, IntType, "add", AddFields) + [Define("add")];
    CallMeaning([], false, IntType, "add", AddFields, [Define("add")], inits, CZero);
  }

  /** A call of add whose initializers build the struct vs enters add with vs. */
  lemma {:induction false} AddEnters(inits: seq<Init<Value>>, vs: seq<Value>)
    requires Construct(AddFields, inits, CZero) == Ok(vs)
    ensures Evaluate(AddUnit(), KeyargsCall("add", inits), CZero) == Ok(Invocation(FuncName("add"), vs))
  {
    AddCallMeaning(inits);
  }

  /** call(add, 3, 4) enters add with a = 3, b = 4, and the body returns 7. */
  lemma {:induction false} AddPositional()
    ensures Evaluate(AddUnit(), KeyargsCall("add", [Pos(IntVal(3)), Pos(IntVal(4))]), CZero)
         == Ok(Invocation(FuncName("add"), [IntVal(3), IntVal(4)]))
    ensures AddBody(Evaluate(AddUnit(), KeyargsCall("add", [Pos(IntVal(3)), Pos(IntVal(4))]), CZero).value.argument) == 7
  {
    AddCallMeaning([Pos(IntVal(3)), Pos(IntVal(4))]);
    assert Positional([IntVal(3), IntVal(4)]) == [Pos(IntVal(3)), Pos(IntVal(4))];
    PositionalComplete(AddFields, [IntVal(3), IntVal(4)], CZero);
  }

  /** call(add, .b = 5, .a = 2) enters add with a = 2, b = 5, and the body returns 7. */
  lemma {:induction false} AddDesignated()
    ensures Evaluate(AddUnit(), KeyargsCall("add", [Desig("b", IntVal(5)), Desig("a", IntVal(2))]), CZero)
         == Ok(Invocation(FuncName("add"), [IntVal(2), IntVal(5)]))
    ensures AddBody(Evaluate(AddUnit(), KeyargsCall("add", [Desig("b", IntVal(5)), Desig("a", IntVal(2))]), CZero).value.argument) == 7
  {
    var inits := [Desig("b", IntVal(5)), Desig("a", IntVal(2))];
    assert Construct(AddFields, inits, CZero) == Ok([IntVal(2), IntVal(5)]) by {
      ExampleFieldsUnique();
      DesignatedEqualsPositional(AddFields, inits, [1, 0], [IntVal(2), IntVal(5)], CZero);
    }
    AddEnters(inits, [IntVal(2), IntVal(5)]);
  }

  /** call(add, .a = 10): b takes its zero value, and the body returns 10. */
  lemma {:induction false} AddOmitted()
    ensures Evaluate(AddUnit(), KeyargsCall("add", [Desig("a", IntVal(10))]), CZero)
         == Ok(Invocation(FuncName("add"), [IntVal(10), IntVal(0)]))
    ensures AddBody(Evaluate(AddUnit(), KeyargsCall("add", [Desig("a", IntVal(10))]), CZero).value.argument) == 10
  {
    var inits := [Desig("a", IntVal(10))];
    assert Construct(AddFields, inits, CZero) == Ok([IntVal(10), IntVal(0)]) by {
      ExampleFieldsUnique();
      DesignatedOnly(AddFields, inits, [0], [IntVal(10), IntVal(0)], CZero);
      assert 1 !in [0];
      assert Construct(AddFields, inits, CZero).value == [IntVal(10), IntVal(0)];
    }
    AddEnters(inits, [IntVal(10), IntVal(0)]);
  }

  /** call(add, 1, 2, 3) is rejected: there are only two members. */
  lemma {:induction false} AddTooMany()
    ensures Evaluate(AddUnit(), KeyargsCall("add", [Pos(IntVal(1)), Pos(IntVal(2)), Pos(IntVal(3))]), CZero)
         == Err(BadInitializer(ExcessInitializer(2)))
  {
    AddCallMeaning([Pos(IntVal(1)), Pos(IntVal(2)), Pos(IntVal(3))]);
    assert Positional([IntVal(1), IntVal(2), IntVal(3)]) == [Pos(IntVal(1)), Pos(IntVal(2)), Pos(IntVal(3))];
    ExcessPositionalRejected(AddFields, [IntVal(1), IntVal(2), IntVal(3)], CZero);
  }

  /** call(add, .c = 1) is rejected: add has no member c. */
  lemma {:induction false} AddUnknownMember()
    ensures Evaluate(AddUnit(), KeyargsCall("add", [Desig("c", IntVal(1))]), CZero)
         == Err(BadInitializer(UnknownMember(0, "c")))
  {
    AddCallMeaning([Desig("c", IntVal(1))]);
    assert MemberIndex(AddFields, "c").None?;
  }

  /** keyargs_declare(void, greet, const char *name; int times;) */
  function GreetUnit(): seq<Decl>
  {
    Declare(Plain("void"), "greet", GreetFields)
  }

  lemma {:induction false} GreetCallMeaning(inits: seq<Init<Value>>)
    ensures Evaluate(GreetUnit(), KeyargsCall("greet", inits), CZero) == Entering(FuncName("greet"), Construct(GreetFields, inits, CZero))
  {
    var D := DeclareAs(false, Plain("void"), "greet", GreetFields);
    DeclareAccepted([], false, Plain("void"), "greet", GreetFields);
    assert [] + D == D && [] + D + [] == D;
    CallMeaning([], false, Plain("void"), "greet", GreetFields, [], inits, CZero);
  }

  /** call(greet, .name = "x") leaves times at 0. */
  lemma {:induction false} GreetOmitted()
    ensures Evaluate(GreetUnit(), KeyargsCall("greet", [Desig("name", StrVal("x"))]), CZero)
         == Ok(Invocation(FuncName("greet"), [StrVal("x"), IntVal(0)]))
  {
    var inits := [Desig("name", StrVal("x"))];
    assert Construct(GreetFields, inits, CZero) == Ok([StrVal("x"), IntVal(0)]) by {
      ExampleFieldsUnique();
      DesignatedOnly(GreetFields, inits, [0], [StrVal("x"), IntVal(0)], CZero);
      assert 1 !in [0];
      assert Construct(GreetFields, inits, CZero).value == [StrVal("x"), IntVal(0)];
    }
    GreetCallMeaning(inits);
  }

  /** keyargs_declare(int, add, int a; int b;) keyargs_declare_clone(add2, add) */
  function CloneUnit(): seq<Decl>
  {
    Declare(IntType, "add", AddFields) + DeclareClone("add2", "add")
  }

  lemma {:induction false} CloneUnitAccepted()
    ensures Consistent(CloneUnit())
  {
    var D := DeclareAs(false, IntType, "add", AddFields);
    DeclareAccepted([], false, IntType, "add", AddFields);
    DeclareKeepsOthersFresh([], false, IntType, "add", AddFields, "add2");
    assert [] + D == D && [] + D + [] == D;
    CloneAccepted([], false, IntType, "add", AddFields, [], "add2");
  }

  lemma {:induction false} CloneCallMeaning(inits: seq<Init<Value>>)
    ensures Evaluate(CloneUnit(), KeyargsCall("add2", inits), CZero) == Entering(FuncName("add2"), Construct(AddFields, inits, CZero))
    ensures Evaluate(CloneUnit(), KeyargsCall("add", inits), CZero) == Entering(FuncName("add"), Construct(AddFields, inits, CZero))
  {
    var D := DeclareAs(false, IntType, "add", AddFields);
    CloneUnitAccepted();
    assert CloneUnit() == [] + D + [] + DeclareClone("add2", "add") + [];
    CloneCallLaw([], false, IntType, "add", AddFields, [], "add2", [], inits, CZero);
  }

  /** call(add2, .a = 1, .b = 2) and call(add, .a = 1, .b = 2) build the same
      struct; the first enters add2's own function. */
  lemma {:induction false} CloneScenario()
    ensures var inits := [Desig("a", IntVal(1)), Desig("b", IntVal(2))];
      && Evaluate(CloneUnit(), KeyargsCall("add2", inits), CZero) == Ok(Invocation(FuncName("add2"), [IntVal(1), IntVal(2)]))
      && Evaluate(CloneUnit(), KeyargsCall("add", inits), CZero) == Ok(Invocation(FuncName("add"), [IntVal(1), IntVal(2)]))
  {
    var inits := [Desig("a", IntVal(1)), Desig("b", IntVal(2))];
    ExampleFieldsUnique();
    DesignatedEqualsPositional(AddFields, inits, [0, 1], [IntVal(1), IntVal(2)], CZero);
    CloneCallMeaning(inits);
  }
}
