/**
  The declaration macros of keyargs.h (lines 14-48) as functions from their
  arguments to the C declarations they expand to. The field list of
  keyargs_declare arrives already split into member declarations.
*/
module Generate {
  import opened Wrappers
  import opened Mangle
  import opened CDecl

  /** The parameter name every definition binds the argument struct to. */
  const ArgsParameter: Ident := "args"

  /** keyargs_declare(nametype, name, fields...), lines 14-17: the struct
      typedef, the return-type typedef and the prototype, each declaring the
      identifier of its own namespace for name. */
  function Declare(ret: TypeExpr, name: Ident, fields: seq<Member>): (r: seq<Decl>)
    ensures |r| == 3
    ensures r[0].Typedef? && Demangle(r[0].name) == Some((ArgsKind, name)) && r[0].ty == AnonStruct(fields)
    ensures r[1].Typedef? && Demangle(r[1].name) == Some((TypeKind, name)) && r[1].ty == ret
    ensures r[2].Prototype? && Demangle(r[2].sig.fname) == Some((FuncKind, name))
    ensures r[2].sig == Signature(NoStorage, ret, r[2].sig.fname, Alias(r[0].name))
  {
    [ Typedef(StructName(name), AnonStruct(fields)),
      Typedef(TypeName(name), ret),
      Prototype(Signature(NoStorage, ret, FuncName(name), Alias(StructName(name)))) ]
  }

  /** keyargs_declare_clone(new, old), lines 22-25: two typedefs aliasing the
      old name's typedef names, and a prototype for the new name written with
      the new typedef names. No struct is written. */
  function DeclareClone(newName: Ident, oldName: Ident): (r: seq<Decl>)
    ensures |r| == 3
    ensures r[0].Typedef? && Demangle(r[0].name) == Some((ArgsKind, newName))
    ensures r[0].ty.Alias? && Demangle(r[0].ty.id) == Some((ArgsKind, oldName))
    ensures r[1].Typedef? && Demangle(r[1].name) == Some((TypeKind, newName))
    ensures r[1].ty.Alias? && Demangle(r[1].ty.id) == Some((TypeKind, oldName))
    ensures r[2].Prototype? && Demangle(r[2].sig.fname) == Some((FuncKind, newName))
    ensures r[2].sig == Signature(NoStorage, Alias(r[1].name), r[2].sig.fname, Alias(r[0].name))
  {
    [ Typedef(StructName(newName), Alias(StructName(oldName))),
      Typedef(TypeName(newName), Alias(TypeName(oldName))),
      Prototype(Signature(NoStorage, Alias(TypeName(newName)), FuncName(newName), Alias(StructName(newName)))) ]
  }

  /** keyargs_define(name), lines 30-31: the head of the definition. */
  function Define(name: Ident): (r: Decl)
    ensures r.Definition? && Demangle(r.sig.fname) == Some((FuncKind, name)) && r.paramName == ArgsParameter
    ensures r.sig.storage == NoStorage
    ensures r.sig.ret.Alias? && Demangle(r.sig.ret.id) == Some((TypeKind, name))
    ensures r.sig.param.Alias? && Demangle(r.sig.param.id) == Some((ArgsKind, name))
  {
    Definition(Signature(NoStorage, Alias(TypeName(name)), FuncName(name), Alias(StructName(name))), ArgsParameter)
  }

  /** keyargs_declare_static(nametype, name, fields...), lines 36-39. */
  function DeclareStatic(ret: TypeExpr, name: Ident, fields: seq<Member>): (r: seq<Decl>)
    ensures |r| == 3 && r[..2] == Declare(ret, name, fields)[..2]
    ensures r[2] == WithStorage(Declare(ret, name, fields)[2], Static) && r[2].sig.storage == Static
  {
    [ Typedef(StructName(name), AnonStruct(fields)),
      Typedef(TypeName(name), ret),
      Prototype(Signature(Static, ret, FuncName(name), Alias(StructName(name)))) ]
  }

  /** keyargs_define_static(name), lines 44-45. */
  function DefineStatic(name: Ident): (r: Decl)
    ensures r == WithStorage(Define(name), Static) && r.sig.storage == Static
  {
    Definition(Signature(Static, Alias(TypeName(name)), FuncName(name), Alias(StructName(name))), ArgsParameter)
  }

  /** One of the two declaring macros, chosen by the linkage asked for. */
  function DeclareAs(isStatic: bool, ret: TypeExpr, name: Ident, fields: seq<Member>): seq<Decl>
  {
    if isStatic then DeclareStatic(ret, name, fields) else Declare(ret, name, fields)
  }

  /** One of the two defining macros, chosen by the linkage asked for. */
  function DefineAs(isStatic: bool, name: Ident): Decl
  {
    if isStatic then DefineStatic(name) else Define(name)
  }

  /** The same declaration with a different storage class. */
  function WithStorage(d: Decl, s: Storage): Decl
  {
    match d
    case Typedef(_, _) => d
    case Prototype(sig) => Prototype(sig.(storage := s))
    case Definition(sig, p) => Definition(sig.(storage := s), p)
  }

  /** True when id is one of the identifiers generated for the logical name. */
  predicate Generated(id: Ident, name: Ident)
  {
    id == StructName(name) || id == TypeName(name) || id == FuncName(name)
  }

  /** The declarations ds declare none of the identifiers generated for name. */
  predicate Fresh(ds: seq<Decl>, name: Ident)
  {
    forall j :: 0 <= j < |ds| ==> !Generated(DeclaredId(ds[j]), name)
  }

  predicate NotDefined(ds: seq<Decl>, id: Ident)
  {
    forall j :: 0 <= j < |ds| ==> !DefinesFunction(ds[j], id)
  }

  // ---------------------------------------------------------------------------
  // Linkage variants.

  /** The static macros emit exactly what the plain ones emit, with `static`
      on the function and nothing else changed. */
  lemma {:induction false} StaticVariantsOnlyAddStatic(ret: TypeExpr, name: Ident, fields: seq<Member>)
    ensures |DeclareStatic(ret, name, fields)| == |Declare(ret, name, fields)| == 3
    ensures forall i :: 0 <= i < 3 ==>
      DeclareStatic(ret, name, fields)[i] == WithStorage(Declare(ret, name, fields)[i], Static)
    ensures DefineStatic(name) == WithStorage(Define(name), Static)
    ensures forall i :: 0 <= i < 3 ==> !Declare(ret, name, fields)[i].Typedef? ==>
      Declare(ret, name, fields)[i].sig.storage == NoStorage && DeclareStatic(ret, name, fields)[i].sig.storage == Static
  {
  }

  // ---------------------------------------------------------------------------
  // What keyargs_declare and keyargs_declare_static declare.

  /** The struct typedef keyargs_declare emits first. */
  function StructTypedef(name: Ident, fields: seq<Member>): Decl
  {
    Typedef(StructName(name), AnonStruct(fields))
  }

  lemma {:induction false} DeclareSplit(pre: seq<Decl>, isStatic: bool, ret: TypeExpr, f: Ident, fields: seq<Member>)
    ensures var D := DeclareAs(isStatic, ret, f, fields);
      && D[0] == StructTypedef(f, fields) && D[1] == Typedef(TypeName(f), ret)
      && !D[2].Typedef? && D[2].sig == Signature(if isStatic then Static else NoStorage, ret, FuncName(f), Alias(StructName(f)))
      && pre + D == pre + [D[0]] + [D[1]] + [D[2]]
  {
  }

  /** Right after keyargs_declare: what its three items declare. */
  lemma {:induction false} DeclareItems(pre: seq<Decl>, isStatic: bool, ret: TypeExpr, f: Ident, fields: seq<Member>)
    ensures var ds := pre + DeclareAs(isStatic, ret, f, fields);
      && Resolve(ds, Alias(StructName(f))) == Struct(|pre|, fields)
      && Resolve(ds, Alias(TypeName(f))) == Resolve(pre + [StructTypedef(f, fields)], ret)
      && IsTypedefName(ds, StructName(f)) && IsTypedefName(ds, TypeName(f))
      && FunctionType(ds, FuncName(f)).Some? && FunctionType(ds, FuncName(f)).value.param == Struct(|pre|, fields)
      && (!ret.AnonStruct? ==>
            FunctionType(ds, FuncName(f)) == Some(RSig(Resolve(pre + [StructTypedef(f, fields)], ret), Struct(|pre|, fields))))
  {
    var D := DeclareAs(isStatic, ret, f, fields);
    DeclareSplit(pre, isStatic, ret, f, fields);
    var d1 := pre + [D[0]];
    var d2 := d1 + [D[1]];
    var d3 := d2 + [D[2]];
    NamespacesDisjoint(f, f);
    ResolveLastTypedef(pre, StructName(f), AnonStruct(fields));
    ResolveSnocOther(d1, D[1], StructName(f));
    ResolveSnocOther(d2, D[2], StructName(f));
    ResolveLastTypedef(d1, TypeName(f), ret);
    ResolveSnocOther(d2, D[2], TypeName(f));
    assert DeclaresTypedef(d3[|pre|], StructName(f));
    assert DeclaresTypedef(d3[|pre| + 1], TypeName(f));
    FunctionTypeLast(d2, D[2]);
    if !ret.AnonStruct? {
      if ret.Alias? && ret.id == TypeName(f) {
        ResolveLastTypedef(d1, TypeName(f), ret);
      } else {
        ResolveTypeFrame(d1, [D[1]], ret);
      }
    }
  }

  /** The three items resolve as the header promises: the struct name denotes
      the struct written in the declaration, the type name denotes the return
      type, and the function takes that struct and returns that type. An
      accepted declaration also has distinct member names. These
      facts survive any later declarations the compiler accepts. */
  lemma {:induction false} DeclareMeaning(pre: seq<Decl>, isStatic: bool, ret: TypeExpr, f: Ident, fields: seq<Member>, post: seq<Decl>)
    requires Consistent(pre + DeclareAs(isStatic, ret, f, fields) + post)
    ensures var ds := pre + DeclareAs(isStatic, ret, f, fields) + post;
      && Resolve(ds, Alias(StructName(f))) == Struct(|pre|, fields)
      && UniqueNames(fields)
      && IsTypedefName(ds, StructName(f)) && IsTypedefName(ds, TypeName(f))
      && !Resolve(ds, Alias(TypeName(f))).Undeclared?
      && (NamedType(pre, ret) ==> Resolve(ds, Alias(TypeName(f))) == Resolve(pre, ret))
      && FunctionType(ds, FuncName(f)).Some? && FunctionType(ds, FuncName(f)).value.param == Struct(|pre|, fields)
      && (!ret.AnonStruct? ==>
            FunctionType(ds, FuncName(f)) == Some(RSig(Resolve(ds, Alias(TypeName(f))), Struct(|pre|, fields))))
  {
    var D := DeclareAs(isStatic, ret, f, fields);
    var d3 := pre + D;
    var ds := d3 + post;
    DeclareItems(pre, isStatic, ret, f, fields);
    DeclareSplit(pre, isStatic, ret, f, fields);
    assert ds[..|d3|] == d3;
    ConsistentPrefix(ds, |d3|);
    assert d3[..|pre| + 2] == pre + [D[0]] + [D[1]];
    ConsistentAdmissible(d3, |pre|);
    ConsistentAdmissible(d3, |pre| + 1);
    StableResolve(d3, post, StructName(f));
    StableResolve(d3, post, TypeName(f));
    if NamedType(pre, ret) {
      assert d3[..|pre| + 1] == pre + [D[0]];
      ConsistentPrefix(d3, |pre| + 1);
      StableType(pre, [D[0]], ret);
    }
    StableFunctionType(d3, post, FuncName(f));
  }

  /** With no earlier declaration of the function, keyargs_declare gives it
      external linkage and keyargs_declare_static internal linkage. */
  lemma {:induction false} DeclareLinkage(pre: seq<Decl>, isStatic: bool, ret: TypeExpr, f: Ident, fields: seq<Member>, post: seq<Decl>)
    requires forall j :: 0 <= j < |pre| ==> !DeclaresFunction(pre[j], FuncName(f))
    ensures LinkageOf(pre + DeclareAs(isStatic, ret, f, fields) + post, FuncName(f))
         == Some(if isStatic then Internal else External)
  {
    var D := DeclareAs(isStatic, ret, f, fields);
    var front := pre + D[..2];
    assert pre + D + post == front + [D[2]] + post;
    forall j | 0 <= j < |front|
      ensures !DeclaresFunction(front[j], FuncName(f))
    {
      if j >= |pre| { assert front[j] == D[j - |pre|]; }
    }
    LinkageFirst(front, D[2], post);
  }

  /** keyargs_declare_static always leaves the function with internal linkage
      in a translation unit the compiler accepts. */
  lemma {:induction false} DeclareStaticIsInternal(pre: seq<Decl>, ret: TypeExpr, f: Ident, fields: seq<Member>, post: seq<Decl>)
    requires Consistent(pre + DeclareStatic(ret, f, fields) + post)
    ensures LinkageOf(pre + DeclareStatic(ret, f, fields) + post, FuncName(f)) == Some(Internal)
  {
    var D := DeclareStatic(ret, f, fields);
    var front := pre + D[..2];
    var ds := pre + D + post;
    assert ds == (front + [D[2]]) + post;
    assert ds[..|front| + 1] == front + [D[2]];
    ConsistentPrefix(ds, |front| + 1);
    StaticDeclarationIsInternal(front, D[2]);
    LinkageFrame(front + [D[2]], post, FuncName(f));
  }

  /** A fresh logical name leaves its three generated identifiers unused. */
  lemma {:induction false} FreshUnused(ds: seq<Decl>, f: Ident)
    requires Fresh(ds, f)
    ensures Unused(ds, StructName(f)) && Unused(ds, TypeName(f)) && Unused(ds, FuncName(f))
  {
    forall j | 0 <= j < |ds|
      ensures !Generated(DeclaredId(ds[j]), f)
    {
    }
  }

  /** Declaring f leaves every other logical name fresh. */
  lemma {:induction false} DeclareKeepsOthersFresh(pre: seq<Decl>, isStatic: bool, ret: TypeExpr, f: Ident, fields: seq<Member>, g: Ident)
    requires Fresh(pre, g) && g != f
    ensures Fresh(pre + DeclareAs(isStatic, ret, f, fields), g)
  {
    var D := DeclareAs(isStatic, ret, f, fields);
    DeclareSplit(pre, isStatic, ret, f, fields);
    NamespacesDisjoint(f, g);
    NamespacesDisjoint(g, f);
    NamesInjective(f, g);
    forall j | 0 <= j < |pre + D|
      ensures !Generated(DeclaredId((pre + D)[j]), g)
    {
      if j < |pre| { assert (pre + D)[j] == pre[j]; }
    }
  }

  /** A fresh name can be declared: the result is accepted. */
  lemma {:induction false} DeclareAccepted(pre: seq<Decl>, isStatic: bool, ret: TypeExpr, f: Ident, fields: seq<Member>)
    requires Consistent(pre) && Fresh(pre, f) && NamedType(pre, ret) && UniqueNames(fields)
    ensures Consistent(pre + DeclareAs(isStatic, ret, f, fields))
  {
    var D := DeclareAs(isStatic, ret, f, fields);
    DeclareSplit(pre, isStatic, ret, f, fields);
    var d1 := pre + [D[0]];
    var d2 := d1 + [D[1]];
    NamespacesDisjoint(f, f);
    FreshUnused(pre, f);
    // The struct typedef.
    FreshTypedefAdmissible(pre, StructName(f), AnonStruct(fields));
    ConsistentSnoc(pre, D[0]);
    // The return-type typedef.
    NamedTypeResolves(pre, ret);
    StableType(pre, [D[0]], ret);
    UnusedSnoc(pre, D[0], TypeName(f));
    FreshTypedefAdmissible(d1, TypeName(f), ret);
    ConsistentSnoc(d1, D[1]);
    // The prototype.
    if ret.Alias? {
      var k :| 0 <= k < |pre| && DeclaresTypedef(pre[k], ret.id);
      assert ret.id != TypeName(f);
    }
    ResolveTypeFrame(d1, [D[1]], ret);
    ResolveLastTypedef(pre, StructName(f), AnonStruct(fields));
    ResolveSnocOther(d1, D[1], StructName(f));
    UnusedSnoc(pre, D[0], FuncName(f));
    UnusedSnoc(d1, D[1], FuncName(f));
    FreshFunctionAdmissible(d2, D[2]);
    ConsistentSnoc(d2, D[2]);
  }

  /** keyargs_declare of a name already declared is rejected: the second
      anonymous struct is a different type from the first (section 6.7.2.3 p5),
      so the typedef is redefined to a different type. */
  lemma {:induction false} RedeclareRejected(pre: seq<Decl>, s1: bool, r1: TypeExpr, f: Ident, fields1: seq<Member>,
                                             mid: seq<Decl>, s2: bool, r2: TypeExpr, fields2: seq<Member>)
    ensures !Consistent(pre + DeclareAs(s1, r1, f, fields1) + mid + DeclareAs(s2, r2, f, fields2))
  {
    var D1 := DeclareAs(s1, r1, f, fields1);
    var D2 := DeclareAs(s2, r2, f, fields2);
    var front := pre + D1 + mid;
    DeclareSplit(pre, s1, r1, f, fields1);
    DeclareSplit(front, s2, r2, f, fields2);
    var s := D2[0];
    var ds := front + D2;
    assert ds[..|front| + 1] == front + [s];
    assert IsTypedefName(front, StructName(f)) by {
      assert front[|pre|] == D1[0];
    }
    var prior := Resolve(front, Alias(StructName(f)));
    assert !Admissible(front, s) by {
      assert s == Typedef(StructName(f), AnonStruct(fields2));
      assert Resolve(front, AnonStruct(fields2)) == Struct(|front|, fields2);
      assert !prior.Struct? || prior.site < |front|;
    }
    ConsistentSnoc(front, s);
    if Consistent(ds) {
      ConsistentPrefix(ds, |front| + 1);
    }
  }

  /** keyargs_declare with two fields of one name is rejected: a struct's
      members must have distinct names (section 6.2.3 p1). */
  lemma {:induction false} DuplicateMemberRejected(pre: seq<Decl>, isStatic: bool, ret: TypeExpr, f: Ident, fields: seq<Member>,
                                                   post: seq<Decl>)
    requires !UniqueNames(fields)
    ensures !Consistent(pre + DeclareAs(isStatic, ret, f, fields) + post)
  {
    var D := DeclareAs(isStatic, ret, f, fields);
    DeclareSplit(pre, isStatic, ret, f, fields);
    var ds := pre + D + post;
    assert ds[..|pre| + 1] == pre + [D[0]];
    assert !Admissible(pre, D[0]);
    ConsistentSnoc(pre, D[0]);
    if Consistent(ds) {
      ConsistentPrefix(ds, |pre| + 1);
    }
  }

  // ---------------------------------------------------------------------------
  // What keyargs_declare_clone declares.

  /** Right after keyargs_declare_clone(g, f): what its three items declare,
      in terms of what f's names denote just before it. */
  lemma {:induction false} CloneItems(B: seq<Decl>, g: Ident, f: Ident)
    ensures var ds := B + DeclareClone(g, f);
      && Resolve(ds, Alias(StructName(g))) == Resolve(B, Alias(StructName(f)))
      && Resolve(ds, Alias(TypeName(g))) == Resolve(B, Alias(TypeName(f)))
      && IsTypedefName(ds, StructName(g)) && IsTypedefName(ds, TypeName(g))
      && FunctionType(ds, FuncName(g))
         == Some(RSig(Resolve(B, Alias(TypeName(f))), Resolve(B, Alias(StructName(f)))))
  {
    var C := DeclareClone(g, f);
    var c1 := B + [C[0]];
    var c2 := c1 + [C[1]];
    assert B + C == c2 + [C[2]];
    NamespacesDisjoint(g, f);
    NamespacesDisjoint(g, g);
    ResolveLastTypedef(B, StructName(g), Alias(StructName(f)));
    ResolveSnocOther(c1, C[1], StructName(g));
    ResolveSnocOther(c2, C[2], StructName(g));
    ResolveSnocOther(B, C[0], TypeName(f));
    ResolveLastTypedef(c1, TypeName(g), Alias(TypeName(f)));
    ResolveSnocOther(c2, C[2], TypeName(g));
    FunctionTypeLast(c2, C[2]);
    assert DeclaresTypedef((B + C)[|B|], StructName(g));
    assert DeclaresTypedef((B + C)[|B| + 1], TypeName(g));
  }

  /** In an accepted unit where f's two type names are already declared
      before the clone, the clone's names denote what f's names denote there. */
  lemma {:induction false} CloneMeaningAfter(B: seq<Decl>, g: Ident, f: Ident, post: seq<Decl>)
    requires Consistent(B + DeclareClone(g, f) + post)
    requires IsTypedefName(B, StructName(f)) && IsTypedefName(B, TypeName(f))
    ensures var ds := B + DeclareClone(g, f) + post;
      && Resolve(ds, Alias(StructName(g))) == Resolve(ds, Alias(StructName(f))) == Resolve(B, Alias(StructName(f)))
      && Resolve(ds, Alias(TypeName(g))) == Resolve(ds, Alias(TypeName(f))) == Resolve(B, Alias(TypeName(f)))
      && FunctionType(ds, FuncName(g))
         == Some(RSig(Resolve(B, Alias(TypeName(f))), Resolve(B, Alias(StructName(f)))))
      && (FunctionType(B, FuncName(f)).Some? ==> FunctionType(ds, FuncName(f)) == FunctionType(B, FuncName(f)))
  {
    var C := DeclareClone(g, f);
    var c3 := B + C;
    var ds := c3 + post;
    assert ds == B + (C + post);
    assert ds[..|c3|] == c3;
    ConsistentPrefix(ds, |c3|);
    CloneItems(B, g, f);
    StableResolve(c3, post, StructName(g));
    StableResolve(c3, post, TypeName(g));
    StableFunctionType(c3, post, FuncName(g));
    StableResolve(B, C + post, StructName(f));
    StableResolve(B, C + post, TypeName(f));
    if FunctionType(B, FuncName(f)).Some? {
      StableFunctionType(B, C + post, FuncName(f));
    }
  }

  /** After keyargs_declare(ret, f, ...) and keyargs_declare_clone(g, f): the
      struct name of g denotes the very struct declared for f (no new struct),
      the type name of g denotes f's return type, and g's function has the same
      resolved signature as f's. */
  lemma {:induction false} CloneMeaning(pre: seq<Decl>, isStatic: bool, ret: TypeExpr, f: Ident, fields: seq<Member>,
                                        mid: seq<Decl>, g: Ident, post: seq<Decl>)
    requires Consistent(pre + DeclareAs(isStatic, ret, f, fields) + mid + DeclareClone(g, f) + post)
    ensures var ds := pre + DeclareAs(isStatic, ret, f, fields) + mid + DeclareClone(g, f) + post;
      && Resolve(ds, Alias(StructName(g))) == Resolve(ds, Alias(StructName(f))) == Struct(|pre|, fields)
      && Resolve(ds, Alias(TypeName(g))) == Resolve(ds, Alias(TypeName(f)))
      && !Resolve(ds, Alias(TypeName(g))).Undeclared?
      && FunctionType(ds, FuncName(g)) == Some(RSig(Resolve(ds, Alias(TypeName(g))), Struct(|pre|, fields)))
      && FunctionType(ds, FuncName(f)).Some? && FunctionType(ds, FuncName(f)).value.param == Struct(|pre|, fields)
      && (!ret.AnonStruct? ==> FunctionType(ds, FuncName(g)) == FunctionType(ds, FuncName(f)))
      && (g != f ==> FuncName(g) != FuncName(f))
  {
    var B := pre + DeclareAs(isStatic, ret, f, fields) + mid;
    var ds := B + DeclareClone(g, f) + post;
    assert ds == B + (DeclareClone(g, f) + post);
    assert ds[..|B|] == B;
    ConsistentPrefix(ds, |B|);
    DeclareMeaning(pre, isStatic, ret, f, fields, mid);
    CloneMeaningAfter(B, g, f, post);
    NamesInjective(g, f);
  }


  /** A fresh name can be cloned from a declared one: the result is accepted. */
  lemma {:induction false} CloneAccepted(pre: seq<Decl>, isStatic: bool, ret: TypeExpr, f: Ident, fields: seq<Member>,
                                         mid: seq<Decl>, g: Ident)
    requires Consistent(pre + DeclareAs(isStatic, ret, f, fields) + mid)
    requires Fresh(pre + DeclareAs(isStatic, ret, f, fields) + mid, g)
    ensures Consistent(pre + DeclareAs(isStatic, ret, f, fields) + mid + DeclareClone(g, f))
  {
    var B := pre + DeclareAs(isStatic, ret, f, fields) + mid;
    DeclareMeaning(pre, isStatic, ret, f, fields, mid);
    FreshUnused(B, g);
    CloneAdmissible(B, g, f);
  }

  /** The clone's three items may follow B when g is unused there and f's
      names denote declared types. */
  lemma {:induction false} CloneAdmissible(B: seq<Decl>, g: Ident, f: Ident)
    requires Consistent(B)
    requires Unused(B, StructName(g)) && Unused(B, TypeName(g)) && Unused(B, FuncName(g))
    requires Resolve(B, Alias(StructName(f))).Struct?
    requires !Resolve(B, Alias(TypeName(f))).Undeclared?
    ensures Consistent(B + DeclareClone(g, f))
  {
    var C := DeclareClone(g, f);
    var c1 := B + [C[0]];
    var c2 := c1 + [C[1]];
    assert B + C == c2 + [C[2]];
    NamespacesDisjoint(g, f);
    NamespacesDisjoint(g, g);
    // The clone's struct-name typedef.
    FreshTypedefAdmissible(B, StructName(g), Alias(StructName(f)));
    ConsistentSnoc(B, C[0]);
    // The clone's type-name typedef.
    ResolveSnocOther(B, C[0], TypeName(f));
    UnusedSnoc(B, C[0], TypeName(g));
    FreshTypedefAdmissible(c1, TypeName(g), Alias(TypeName(f)));
    ConsistentSnoc(c1, C[1]);
    // The clone's prototype.
    ResolveLastTypedef(c1, TypeName(g), Alias(TypeName(f)));
    ResolveLastTypedef(B, StructName(g), Alias(StructName(f)));
    ResolveSnocOther(c1, C[1], StructName(g));
    UnusedSnoc(B, C[0], FuncName(g));
    UnusedSnoc(c1, C[1], FuncName(g));
    FreshFunctionAdmissible(c2, C[2]);
    ConsistentSnoc(c2, C[2]);
  }

  /** keyargs_declare_clone before the old name is declared is rejected
      (use before declaration). */
  lemma {:induction false} CloneBeforeDeclareRejected(pre: seq<Decl>, g: Ident, f: Ident)
    requires !IsTypedefName(pre, StructName(f))
    ensures !Consistent(pre + DeclareClone(g, f))
  {
    var C := DeclareClone(g, f);
    ResolveNeverDeclared(pre, StructName(f));
    assert !Admissible(pre, C[0]);
    ConsistentSnoc(pre, C[0]);
    assert (pre + C)[..|pre| + 1] == pre + [C[0]];
    if Consistent(pre + C) {
      ConsistentPrefix(pre + C, |pre| + 1);
    }
  }

  // ---------------------------------------------------------------------------
  // What keyargs_define and keyargs_define_static open.

  /** The head keyargs_define(f) emits has, once typedefs are resolved, the
      signature of the function keyargs_declare or keyargs_declare_clone
      declared for f, and binds the argument struct to `args`. */
  lemma {:induction false} DefineMatchesDeclaration(ds: seq<Decl>, isStatic: bool, f: Ident, fields: seq<Member>, site: nat)
    requires Resolve(ds, Alias(StructName(f))) == Struct(site, fields)
    requires FunctionType(ds, FuncName(f)) == Some(RSig(Resolve(ds, Alias(TypeName(f))), Struct(site, fields)))
    ensures DefineAs(isStatic, f).sig.fname == FuncName(f) && DefineAs(isStatic, f).paramName == ArgsParameter
    ensures Some(ResolveSig(ds, DefineAs(isStatic, f).sig)) == FunctionType(ds, FuncName(f))
  {
  }

  /** The conditions under which the head of a definition may follow ds. */
  lemma {:induction false} DefineAdmissible(ds: seq<Decl>, isStatic: bool, f: Ident, fields: seq<Member>, site: nat)
    requires Resolve(ds, Alias(StructName(f))) == Struct(site, fields)
    requires !Resolve(ds, Alias(TypeName(f))).Undeclared?
    requires FunctionType(ds, FuncName(f)) == Some(RSig(Resolve(ds, Alias(TypeName(f))), Struct(site, fields)))
    requires forall j :: 0 <= j < |ds| ==> !DeclaresTypedef(ds[j], FuncName(f))
    requires NotDefined(ds, FuncName(f))
    requires isStatic ==> LinkageOf(ds, FuncName(f)) != Some(External)
    ensures Admissible(ds, DefineAs(isStatic, f))
  {
    DefineMatchesDeclaration(ds, isStatic, f, fields, site);
  }

  /** keyargs_define after keyargs_declare (or keyargs_define_static after
      keyargs_declare_static) is accepted, and its head has the declared signature. */
  lemma {:induction false} DefineAccepted(pre: seq<Decl>, staticDecl: bool, ret: TypeExpr, f: Ident, fields: seq<Member>,
                                          mid: seq<Decl>, staticDef: bool)
    requires !ret.AnonStruct?
    requires staticDef ==> staticDecl
    requires Consistent(pre + DeclareAs(staticDecl, ret, f, fields) + mid)
    requires NotDefined(pre + DeclareAs(staticDecl, ret, f, fields) + mid, FuncName(f))
    ensures var ds := pre + DeclareAs(staticDecl, ret, f, fields) + mid;
      && Consistent(ds + [DefineAs(staticDef, f)])
      && Some(ResolveSig(ds, DefineAs(staticDef, f).sig)) == FunctionType(ds, FuncName(f))
  {
    var ds := pre + DeclareAs(staticDecl, ret, f, fields) + mid;
    var d := DefineAs(staticDef, f);
    DeclareMeaning(pre, staticDecl, ret, f, fields, mid);
    DefineMatchesDeclaration(ds, staticDef, f, fields, |pre|);
    assert DeclaresFunction(ds[|pre| + 2], FuncName(f));
    FunctionIsNotTypedef(ds, |pre| + 2, FuncName(f));
    if staticDef {
      assert ds == pre + DeclareStatic(ret, f, fields) + mid;
      DeclareStaticIsInternal(pre, ret, f, fields, mid);
    }
    DefineAdmissible(ds, staticDef, f, fields, |pre|);
    ConsistentSnoc(ds, d);
  }

  /** keyargs_define(g) after keyargs_declare_clone(g, f) is accepted, and its
      head has the signature of f's function. */
  lemma {:induction false} DefineAfterCloneAccepted(pre: seq<Decl>, isStatic: bool, ret: TypeExpr, f: Ident, fields: seq<Member>,
                                                    mid: seq<Decl>, g: Ident, post: seq<Decl>)
    requires Consistent(pre + DeclareAs(isStatic, ret, f, fields) + mid + DeclareClone(g, f) + post)
    requires NotDefined(pre + DeclareAs(isStatic, ret, f, fields) + mid + DeclareClone(g, f) + post, FuncName(g))
    ensures var ds := pre + DeclareAs(isStatic, ret, f, fields) + mid + DeclareClone(g, f) + post;
      && Consistent(ds + [Define(g)])
      && Some(ResolveSig(ds, Define(g).sig)) == FunctionType(ds, FuncName(g))
      && (!ret.AnonStruct? ==> FunctionType(ds, FuncName(g)) == FunctionType(ds, FuncName(f)))
  {
    var ds := pre + DeclareAs(isStatic, ret, f, fields) + mid + DeclareClone(g, f) + post;
    CloneMeaning(pre, isStatic, ret, f, fields, mid, g, post);
    DefineDeclaredAccepted(ds, g, fields, |pre|);
  }


  /** keyargs_define(g) may follow an accepted unit in which g's function is
      declared, not yet defined, and its names denote a struct and a declared
      return type matching that declaration. */
  lemma {:induction false} DefineDeclaredAccepted(ds: seq<Decl>, g: Ident, fields: seq<Member>, site: nat)
    requires Consistent(ds)
    requires NotDefined(ds, FuncName(g))
    requires Resolve(ds, Alias(StructName(g))) == Struct(site, fields)
    requires !Resolve(ds, Alias(TypeName(g))).Undeclared?
    requires FunctionType(ds, FuncName(g)) == Some(RSig(Resolve(ds, Alias(TypeName(g))), Struct(site, fields)))
    ensures Consistent(ds + [Define(g)])
    ensures Some(ResolveSig(ds, Define(g).sig)) == FunctionType(ds, FuncName(g))
  {
    FunctionIsNotTypedef(ds, LastFunction(ds, FuncName(g)).value, FuncName(g));
    DefineAdmissible(ds, false, g, fields, site);
    DefineMatchesDeclaration(ds, false, g, fields, site);
    assert DefineAs(false, g) == Define(g);
    ConsistentSnoc(ds, Define(g));
  }

  /** keyargs_define, or keyargs_define_static, before the name's type name is
      declared is rejected: the head names an undeclared type. */
  lemma {:induction false} DefineBeforeDeclareRejected(pre: seq<Decl>, isStatic: bool, f: Ident)
    requires !IsTypedefName(pre, TypeName(f))
    ensures !Consistent(pre + [DefineAs(isStatic, f)])
  {
    ResolveNeverDeclared(pre, TypeName(f));
    ConsistentSnoc(pre, DefineAs(isStatic, f));
  }

  /** keyargs_define_static on a name that keyargs_declare gave external
      linkage is rejected (section 6.2.2 p7). */
  lemma {:induction false} DefineStaticAfterDeclareRejected(pre: seq<Decl>, ret: TypeExpr, f: Ident, fields: seq<Member>, mid: seq<Decl>)
    requires forall j :: 0 <= j < |pre| ==> !DeclaresFunction(pre[j], FuncName(f))
    ensures !Consistent(pre + Declare(ret, f, fields) + mid + [DefineStatic(f)])
  {
    var ds := pre + Declare(ret, f, fields) + mid;
    DeclareLinkage(pre, false, ret, f, fields, mid);
    assert ds == pre + DeclareAs(false, ret, f, fields) + mid;
    ConsistentSnoc(ds, DefineStatic(f));
  }

  /** A second definition of the same function is rejected (section 6.9 p3 and p5). */
  lemma {:induction false} DefineTwiceRejected(pre: seq<Decl>, s1: bool, f: Ident, mid: seq<Decl>, s2: bool)
    ensures !Consistent(pre + [DefineAs(s1, f)] + mid + [DefineAs(s2, f)])
  {
    var front := pre + [DefineAs(s1, f)] + mid;
    assert DefinesFunction(front[|pre|], FuncName(f));
    ConsistentSnoc(front, DefineAs(s2, f));
  }

  /** keyargs_declare repeats `nametype` in its prototype while keyargs_define
      names the return type through keyargs_type_name. When the return type is
      an anonymous struct, the two are different types, and the definition is
      rejected however the unit continues. */
  lemma {:induction false} AnonymousReturnTypeBreaksDefine(pre: seq<Decl>, rfields: seq<Member>, f: Ident, fields: seq<Member>)
    ensures var ds := pre + Declare(AnonStruct(rfields), f, fields);
      && FunctionType(ds, FuncName(f)).Some?
      && FunctionType(ds, FuncName(f)).value.ret == Struct(|pre| + 2, rfields)
      && Resolve(ds, Alias(TypeName(f))) == Struct(|pre| + 1, rfields)
      && !Consistent(ds + [Define(f)])
  {
    var D := Declare(AnonStruct(rfields), f, fields);
    var ds := pre + D;
    var d2 := pre + D[..2];
    assert ds == d2 + [D[2]];
    FunctionTypeLast(d2, D[2]);
    NamespacesDisjoint(f, f);
    assert d2 == (pre + [D[0]]) + [D[1]];
    ResolveLastTypedef(pre + [D[0]], TypeName(f), AnonStruct(rfields));
    ResolveFrame(d2, [D[2]], TypeName(f));
    ConsistentSnoc(ds, Define(f));
  }
}
