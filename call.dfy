/**
  keyargs_call(name, ...) (keyargs.h line 50): a call of the underlying
  function with one argument, the compound literal (ISO C11, section 6.5.2.5)
  of the argument struct initialised by the caller's list.
*/
module Call {
  import opened Wrappers
  import opened Mangle
  import opened CDecl
  import opened Generate
  import opened Initializer

  /** `(ty){ inits }`. */
  datatype Expr<V> = CompoundLiteral(ty: TypeExpr, inits: seq<Init<V>>)

  /** `callee(args...)`. */
  datatype CallExpr<V> = CallExpr(callee: Ident, args: seq<Expr<V>>)

  /** The expansion of keyargs_call(name, inits...). */
  function KeyargsCall<V>(name: Ident, inits: seq<Init<V>>): (r: CallExpr<V>)
    ensures Demangle(r.callee) == Some((FuncKind, name))
    ensures |r.args| == 1 && r.args[0].inits == inits
    ensures r.args[0].ty.Alias? && Demangle(r.args[0].ty.id) == Some((ArgsKind, name))
  {
    CallExpr(FuncName(name), [CompoundLiteral(Alias(StructName(name)), inits)])
  }

  /** What a call does at run time: it enters callee with this argument struct. */
  datatype Invocation<V> = Invocation(callee: Ident, argument: seq<V>)

  datatype CallError =
    | UndeclaredFunction(callee: Ident)                   // no declaration in scope
    | ArgumentCount(given: nat)                           // section 6.5.2.2 p2
    | NotAStruct(ty: RType)                               // the literal's type is no struct
    | ArgumentTypeMismatch(expected: RType, actual: RType) // section 6.5.2.2 p2
    | BadInitializer(error: InitError)                    // section 6.7.9

  /** The meaning of a call after the declarations ds, with zero giving the
      zero value of each member type. */
  function Evaluate<V>(ds: seq<Decl>, c: CallExpr<V>, zero: TypeExpr -> V): (r: Result<Invocation<V>, CallError>)
    ensures FunctionType(ds, c.callee).None? ==> r == Err(UndeclaredFunction(c.callee))
    ensures r.Ok? <==>
      && FunctionType(ds, c.callee).Some? && |c.args| == 1
      && Resolve(ds, c.args[0].ty).Struct?
      && Resolve(ds, c.args[0].ty) == FunctionType(ds, c.callee).value.param
      && Construct(Resolve(ds, c.args[0].ty).members, c.args[0].inits, zero).Ok?
    ensures FunctionType(ds, c.callee).Some? && |c.args| == 1
         && Resolve(ds, c.args[0].ty).Struct?
         && Resolve(ds, c.args[0].ty) == FunctionType(ds, c.callee).value.param
         ==> r == Entering(c.callee, Construct(Resolve(ds, c.args[0].ty).members, c.args[0].inits, zero))
  {
    match FunctionType(ds, c.callee)
    case None => Err(UndeclaredFunction(c.callee))
    case Some(sig) =>
      if |c.args| != 1 then Err(ArgumentCount(|c.args|))
      else
        var lit := c.args[0];
        var t := Resolve(ds, lit.ty);
        if !t.Struct? then Err(NotAStruct(t))
        else if t != sig.param then Err(ArgumentTypeMismatch(sig.param, t))
        else match Construct(t.members, lit.inits, zero)
          case Err(e) => Err(BadInitializer(e))
          case Ok(r) => Ok(Invocation(c.callee, r))
  }

  /** A call to callee with the struct built by r, or r's error. */
  function Entering<V>(callee: Ident, r: Result<seq<V>, InitError>): Result<Invocation<V>, CallError>
  {
    match r
    case Err(e) => Err(BadInitializer(e))
    case Ok(v) => Ok(Invocation(callee, v))
  }

  /** After keyargs_declare(ret, f, fields...), keyargs_call(f, inits...)
      enters f's underlying function with the struct that C11 initialisation
      of the declared fields by inits produces, or fails as that
      initialisation does. Those fields have distinct names, so each
      designator selects the one member of that name. */
  lemma {:induction false} CallMeaning<V>(pre: seq<Decl>, isStatic: bool, ret: TypeExpr, f: Ident, fields: seq<Member>,
                                          post: seq<Decl>, inits: seq<Init<V>>, zero: TypeExpr -> V)
    requires Consistent(pre + DeclareAs(isStatic, ret, f, fields) + post)
    ensures Evaluate(pre + DeclareAs(isStatic, ret, f, fields) + post, KeyargsCall(f, inits), zero)
         == Entering(FuncName(f), Construct(fields, inits, zero))
    ensures UniqueNames(fields)
  {
    DeclareMeaning(pre, isStatic, ret, f, fields, post);
    CallOfDeclared(pre + DeclareAs(isStatic, ret, f, fields) + post, f, fields, |pre|, inits, zero);
  }

  /** A call of f in a unit where f's struct name denotes the struct of the
      fields and f's function takes that struct. */
  lemma {:induction false} CallOfDeclared<V>(ds: seq<Decl>, f: Ident, fields: seq<Member>, site: nat,
                                             inits: seq<Init<V>>, zero: TypeExpr -> V)
    requires Resolve(ds, Alias(StructName(f))) == Struct(site, fields)
    requires FunctionType(ds, FuncName(f)).Some? && FunctionType(ds, FuncName(f)).value.param == Struct(site, fields)
    ensures Evaluate(ds, KeyargsCall(f, inits), zero) == Entering(FuncName(f), Construct(fields, inits, zero))
  {
  }

  /** The clone law: after keyargs_declare(ret, f, ...) and
      keyargs_declare_clone(g, f), a call of g accepts exactly the lists a call
      of f accepts and builds the same struct, but enters g's own function. */
  lemma {:induction false} CloneCallLaw<V>(pre: seq<Decl>, isStatic: bool, ret: TypeExpr, f: Ident, fields: seq<Member>,
                                           mid: seq<Decl>, g: Ident, post: seq<Decl>, inits: seq<Init<V>>, zero: TypeExpr -> V)
    requires Consistent(pre + DeclareAs(isStatic, ret, f, fields) + mid + DeclareClone(g, f) + post)
    ensures var ds := pre + DeclareAs(isStatic, ret, f, fields) + mid + DeclareClone(g, f) + post;
      && Evaluate(ds, KeyargsCall(f, inits), zero) == Entering(FuncName(f), Construct(fields, inits, zero))
      && Evaluate(ds, KeyargsCall(g, inits), zero) == Entering(FuncName(g), Construct(fields, inits, zero))
  {
    var ds := pre + DeclareAs(isStatic, ret, f, fields) + mid + DeclareClone(g, f) + post;
    CloneMeaning(pre, isStatic, ret, f, fields, mid, g, post);
    CallOfDeclared(ds, f, fields, |pre|, inits, zero);
    CallOfDeclared(ds, g, fields, |pre|, inits, zero);
  }

  /** A call before any declaration of the name is rejected. */
  lemma {:induction false} CallBeforeDeclareRejected<V>(ds: seq<Decl>, f: Ident, inits: seq<Init<V>>, zero: TypeExpr -> V)
    requires forall j :: 0 <= j < |ds| ==> !DeclaresFunction(ds[j], FuncName(f))
    ensures Evaluate(ds, KeyargsCall(f, inits), zero) == Err(UndeclaredFunction(FuncName(f)))
  {
  }
}
