/**
  The C declarations the keyargs macros emit, and the parts of ISO C11 needed
  to give them a meaning inside one translation unit: typedef resolution,
  function lookup, linkage (section 6.2.2) and the rules that reject a
  redeclaration (sections 6.7 and 6.9).

  A translation unit is the sequence of emitted declarations, in order.
*/
module CDecl {
  import opened Wrappers
  import opened Mangle

  /** A type as written in a declaration. */
  datatype TypeExpr =
    | Plain(spelling: string)          // written with keywords or tags: int, void, struct foo *
    | Alias(id: Ident)                 // a typedef name
    | AnonStruct(members: seq<Member>) // struct { members }, a new type in each declaration that writes it

  /** One member declaration of a struct, `type name;`. */
  datatype Member = Member(ty: TypeExpr, name: Ident)

  /** The storage-class specifier of a function declaration. */
  datatype Storage = NoStorage | Static

  /** `storage ret fname ( param )`. */
  datatype Signature = Signature(storage: Storage, ret: TypeExpr, fname: Ident, param: TypeExpr)

  datatype Decl =
    | Typedef(name: Ident, ty: TypeExpr)           // typedef ty name;
    | Prototype(sig: Signature)                    // a declaration, no parameter name, no body
    | Definition(sig: Signature, paramName: Ident) // the head of a definition; its body follows

  /** A type after typedef names have been followed. An anonymous struct is
      identified by the position of the declaration that wrote it. */
  datatype RType =
    | Primitive(spelling: string)
    | Struct(site: nat, members: seq<Member>)
    | Undeclared(id: Ident)

  datatype RSig = RSig(ret: RType, param: RType)

  datatype Linkage = External | Internal

  predicate DeclaresTypedef(d: Decl, id: Ident)
  {
    d.Typedef? && d.name == id
  }

  predicate DeclaresFunction(d: Decl, id: Ident)
  {
    !d.Typedef? && d.sig.fname == id
  }

  predicate DefinesFunction(d: Decl, id: Ident)
  {
    d.Definition? && d.sig.fname == id
  }

  /** The ordinary identifier a declaration introduces. */
  function DeclaredId(d: Decl): Ident
  {
    if d.Typedef? then d.name else d.sig.fname
  }

  predicate IsTypedefName(ds: seq<Decl>, id: Ident)
  {
    exists j :: 0 <= j < |ds| && DeclaresTypedef(ds[j], id)
  }

  /** The type t denotes after the declarations ds. A typedef name denotes the
      type of its latest typedef, resolved among the declarations before it. */
  function Resolve(ds: seq<Decl>, t: TypeExpr): (r: RType)
    decreases |ds|
    ensures r.Struct? ==>
      || (t.AnonStruct? && r == Struct(|ds|, t.members))
      || (r.site < |ds| && ds[r.site].Typedef? && ds[r.site].ty == AnonStruct(r.members))
    ensures r.Struct? && !t.AnonStruct? ==> r.site < |ds|
    ensures r.Undeclared? ==> t.Alias?
  {
    match t
    case Plain(s) => Primitive(s)
    case AnonStruct(ms) => Struct(|ds|, ms)
    case Alias(id) =>
      if ds == [] then Undeclared(id)
      else
        var pre, last := ds[..|ds| - 1], ds[|ds| - 1];
        if DeclaresTypedef(last, id) then Resolve(pre, last.ty) else Resolve(pre, t)
  }

  function ResolveSig(ds: seq<Decl>, s: Signature): RSig
  {
    RSig(Resolve(ds, s.ret), Resolve(ds, s.param))
  }

  /** The position of the latest declaration of function id. */
  function LastFunction(ds: seq<Decl>, id: Ident): (r: Option<nat>)
    decreases |ds|
    ensures r.Some? ==> r.value < |ds| && DeclaresFunction(ds[r.value], id)
    ensures r.Some? ==> forall j :: r.value < j < |ds| ==> !DeclaresFunction(ds[j], id)
    ensures r.None? ==> forall j :: 0 <= j < |ds| ==> !DeclaresFunction(ds[j], id)
  {
    if ds == [] then None
    else if DeclaresFunction(ds[|ds| - 1], id) then Some(|ds| - 1)
    else LastFunction(ds[..|ds| - 1], id)
  }

  /** The position of the first declaration of function id. */
  function FirstFunction(ds: seq<Decl>, id: Ident): (r: Option<nat>)
    decreases |ds|
    ensures r.Some? ==> r.value < |ds| && DeclaresFunction(ds[r.value], id)
    ensures r.Some? ==> forall j :: 0 <= j < r.value ==> !DeclaresFunction(ds[j], id)
    ensures r.None? ==> forall j :: 0 <= j < |ds| ==> !DeclaresFunction(ds[j], id)
  {
    if ds == [] then None
    else match FirstFunction(ds[..|ds| - 1], id)
      case Some(i) => Some(i)
      case None => if DeclaresFunction(ds[|ds| - 1], id) then Some(|ds| - 1) else None
  }

  /** The resolved type of function id, as its latest declaration states it. */
  function FunctionType(ds: seq<Decl>, id: Ident): Option<RSig>
  {
    match LastFunction(ds, id)
    case None => None
    case Some(i) => Some(ResolveSig(ds[..i], ds[i].sig))
  }

  /** Section 6.2.2 p3-p5 of C11: the first declaration of a function at file
      scope fixes its linkage; `static` gives internal linkage, no storage
      class gives external linkage, and later declarations without a storage
      class keep the linkage already established. */
  function LinkageOf(ds: seq<Decl>, id: Ident): (r: Option<Linkage>)
    ensures r.None? <==> forall j :: 0 <= j < |ds| ==> !DeclaresFunction(ds[j], id)
    ensures forall i :: (0 <= i < |ds| && DeclaresFunction(ds[i], id) && (forall j :: 0 <= j < i ==> !DeclaresFunction(ds[j], id))
      ==> r == Some(if ds[i].sig.storage == Static then Internal else External))
  {
    match FirstFunction(ds, id)
    case None => None
    case Some(i) => Some(if ds[i].sig.storage == Static then Internal else External)
  }

  /** Member names are distinct, as C requires of a struct. */
  predicate UniqueNames(ms: seq<Member>)
  {
    forall i, j :: 0 <= i < j < |ms| ==> ms[i].name != ms[j].name
  }

  /** A struct written in place has members with distinct names; other types
      are written without members. */
  predicate MembersDistinct(t: TypeExpr)
  {
    t.AnonStruct? ==> UniqueNames(t.members)
  }

  /** Whether declaration d may follow the declarations ds in one translation unit:
      - the members of a struct written in the declaration have distinct names (6.2.3 p1, 6.7.2.1);
      - a typedef name may be redefined only to the same type (6.7 p3);
      - a typedef name and a function are both ordinary identifiers and may not share a name (6.2.3);
      - every type a declaration names must be declared before it;
      - redeclarations of a function must have the same type (6.7 p4);
      - a `static` declaration may not follow one with external linkage (6.2.2 p7);
      - a function has at most one definition (6.9 p3 and p5). */
  predicate Admissible(ds: seq<Decl>, d: Decl)
  {
    match d
    case Typedef(n, t) =>
      && (forall j :: 0 <= j < |ds| ==> !DeclaresFunction(ds[j], n))
      && !Resolve(ds, t).Undeclared?
      && MembersDistinct(t)
      && (IsTypedefName(ds, n) ==> Resolve(ds, Alias(n)) == Resolve(ds, t))
    case _ =>
      var id := d.sig.fname;
      && (forall j :: 0 <= j < |ds| ==> !DeclaresTypedef(ds[j], id))
      && !Resolve(ds, d.sig.ret).Undeclared?
      && !Resolve(ds, d.sig.param).Undeclared?
      && MembersDistinct(d.sig.ret) && MembersDistinct(d.sig.param)
      && (FunctionType(ds, id).Some? ==> FunctionType(ds, id).value == ResolveSig(ds, d.sig))
      && (d.sig.storage == Static ==> LinkageOf(ds, id) != Some(External))
      && (d.Definition? ==> forall j :: 0 <= j < |ds| ==> !DefinesFunction(ds[j], id))
  }

  /** Every declaration is admissible after the ones before it. */
  predicate EachAdmissible(ds: seq<Decl>)
  {
    forall k :: 0 <= k < |ds| ==> Admissible(ds[..k], ds[k])
  }

  /** A translation unit a conforming compiler accepts, as far as the rules above go. */
  predicate Consistent(ds: seq<Decl>)
    decreases |ds|
  {
    ds == [] || (Consistent(ds[..|ds| - 1]) && Admissible(ds[..|ds| - 1], ds[|ds| - 1]))
  }

  // ---------------------------------------------------------------------------
  // Facts about appending declarations.

  /** Declarations that do not typedef id do not change what id denotes. */
  lemma {:induction false} ResolveFrame(ds: seq<Decl>, extra: seq<Decl>, id: Ident)
    requires forall j :: 0 <= j < |extra| ==> !DeclaresTypedef(extra[j], id)
    ensures Resolve(ds + extra, Alias(id)) == Resolve(ds, Alias(id))
    decreases |extra|
  {
    if extra != [] {
      var all := ds + extra;
      var init := extra[..|extra| - 1];
      assert all[..|all| - 1] == ds + init;
      assert !DeclaresTypedef(all[|all| - 1], id);
      ResolveFrame(ds, init, id);
    } else {
      assert ds + extra == ds;
    }
  }

  /** An identifier that was never typedef'd is undeclared as a type. */
  lemma {:induction false} ResolveNeverDeclared(ds: seq<Decl>, id: Ident)
    requires forall j :: 0 <= j < |ds| ==> !DeclaresTypedef(ds[j], id)
    ensures Resolve(ds, Alias(id)) == Undeclared(id)
  {
    ResolveFrame([], ds, id);
    assert [] + ds == ds;
  }

  /** A type that resolves in ds resolves the same after any declarations that
      do not typedef the name it is written with. */
  lemma {:induction false} ResolveTypeFrame(ds: seq<Decl>, extra: seq<Decl>, t: TypeExpr)
    requires !t.AnonStruct?
    requires t.Alias? ==> forall j :: 0 <= j < |extra| ==> !DeclaresTypedef(extra[j], t.id)
    ensures Resolve(ds + extra, t) == Resolve(ds, t)
  {
    if t.Alias? {
      ResolveFrame(ds, extra, t.id);
    }
  }

  /** The typedef just appended is what its name denotes. */
  lemma {:induction false} ResolveLastTypedef(ds: seq<Decl>, n: Ident, t: TypeExpr)
    ensures Resolve(ds + [Typedef(n, t)], Alias(n)) == Resolve(ds, t)
  {
    assert (ds + [Typedef(n, t)])[..|ds|] == ds;
  }

  /** Declarations that do not declare function id keep its latest declaration. */
  lemma {:induction false} LastFunctionFrame(ds: seq<Decl>, extra: seq<Decl>, id: Ident)
    requires forall j :: 0 <= j < |extra| ==> !DeclaresFunction(extra[j], id)
    ensures LastFunction(ds + extra, id) == LastFunction(ds, id)
    decreases |extra|
  {
    if extra == [] {
      assert ds + extra == ds;
    } else {
      var all := ds + extra;
      var init := extra[..|extra| - 1];
      assert all[..|all| - 1] == ds + init;
      assert !DeclaresFunction(all[|all| - 1], id);
      LastFunctionFrame(ds, init, id);
    }
  }

  lemma {:induction false} FunctionTypeFrame(ds: seq<Decl>, extra: seq<Decl>, id: Ident)
    requires forall j :: 0 <= j < |extra| ==> !DeclaresFunction(extra[j], id)
    ensures FunctionType(ds + extra, id) == FunctionType(ds, id)
  {
    LastFunctionFrame(ds, extra, id);
    var all := ds + extra;
    if LastFunction(ds, id).Some? {
      var i := LastFunction(ds, id).value;
      assert all[..i] == ds[..i];
      assert all[i] == ds[i];
    }
  }

  /** The function just appended is the latest declaration of its name. */
  lemma {:induction false} FunctionTypeLast(ds: seq<Decl>, d: Decl)
    requires !d.Typedef?
    ensures FunctionType(ds + [d], d.sig.fname) == Some(ResolveSig(ds, d.sig))
  {
    assert (ds + [d])[..|ds|] == ds;
  }

  /** Appending declarations never changes the first declaration of a function. */
  lemma {:induction false} FirstFunctionFrame(ds: seq<Decl>, extra: seq<Decl>, id: Ident)
    requires FirstFunction(ds, id).Some?
    ensures FirstFunction(ds + extra, id) == FirstFunction(ds, id)
    decreases |extra|
  {
    if extra == [] {
      assert ds + extra == ds;
    } else {
      var all := ds + extra;
      var init := extra[..|extra| - 1];
      assert all[..|all| - 1] == ds + init;
      FirstFunctionFrame(ds, init, id);
    }
  }

  /** Appending declarations never changes an established linkage. */
  lemma {:induction false} LinkageFrame(ds: seq<Decl>, extra: seq<Decl>, id: Ident)
    requires LinkageOf(ds, id).Some?
    ensures LinkageOf(ds + extra, id) == LinkageOf(ds, id)
  {
    FirstFunctionFrame(ds, extra, id);
    var i := FirstFunction(ds, id).value;
    assert (ds + extra)[i] == ds[i];
  }

  /** One more function declaration keeps an established linkage, and
      otherwise establishes the one its storage class gives. */
  lemma {:induction false} LinkageAfter(ds: seq<Decl>, d: Decl)
    requires !d.Typedef?
    ensures LinkageOf(ds + [d], d.sig.fname)
         == if LinkageOf(ds, d.sig.fname).Some? then LinkageOf(ds, d.sig.fname)
            else Some(if d.sig.storage == Static then Internal else External)
  {
    if LinkageOf(ds, d.sig.fname).Some? {
      LinkageFrame(ds, [d], d.sig.fname);
    } else {
      assert ds + [d] + [] == ds + [d];
      LinkageFirst(ds, d, []);
    }
  }

  /** Without an earlier declaration, the first function declaration appended fixes the linkage. */
  lemma {:induction false} LinkageFirst(ds: seq<Decl>, d: Decl, extra: seq<Decl>)
    requires !d.Typedef?
    requires forall j :: 0 <= j < |ds| ==> !DeclaresFunction(ds[j], d.sig.fname)
    ensures LinkageOf(ds + [d] + extra, d.sig.fname)
         == Some(if d.sig.storage == Static then Internal else External)
  {
    var id := d.sig.fname;
    var all := ds + [d];
    assert all[..|ds|] == ds;
    assert FirstFunction(all, id) == Some(|ds|);
    LinkageFrame(all, extra, id);
  }

  /** Every prefix of a consistent translation unit is consistent. */
  lemma {:induction false} ConsistentPrefix(ds: seq<Decl>, k: nat)
    requires Consistent(ds) && k <= |ds|
    ensures Consistent(ds[..k])
    decreases |ds|
  {
    if k < |ds| {
      assert ds[..|ds| - 1][..k] == ds[..k];
      ConsistentPrefix(ds[..|ds| - 1], k);
    } else {
      assert ds[..k] == ds;
    }
  }

  /** In a consistent translation unit every declaration was admissible where it stands. */
  lemma {:induction false} ConsistentAdmissible(ds: seq<Decl>, k: nat)
    requires Consistent(ds) && k < |ds|
    ensures Admissible(ds[..k], ds[k])
  {
    ConsistentPrefix(ds, k + 1);
    assert ds[..k + 1][..k] == ds[..k];
  }

  lemma {:induction false} ConsistentSnoc(ds: seq<Decl>, d: Decl)
    ensures Consistent(ds + [d]) <==> Consistent(ds) && Admissible(ds, d)
  {
    assert (ds + [d])[..|ds|] == ds;
  }

  /** A type written with keywords, or with a typedef name already declared. */
  predicate NamedType(ds: seq<Decl>, t: TypeExpr)
  {
    t.Plain? || (t.Alias? && IsTypedefName(ds, t.id))
  }

  // ---------------------------------------------------------------------------
  // In a consistent translation unit, what a name denotes never changes once
  // it is declared: every redeclaration must agree with what came before.

  lemma {:induction false} StableResolve(ds: seq<Decl>, extra: seq<Decl>, id: Ident)
    requires Consistent(ds + extra) && IsTypedefName(ds, id)
    ensures Resolve(ds + extra, Alias(id)) == Resolve(ds, Alias(id))
    decreases |extra|
  {
    if extra == [] {
      assert ds + extra == ds;
    } else {
      var init, d := extra[..|extra| - 1], extra[|extra| - 1];
      assert ds + extra == (ds + init) + [d];
      ConsistentSnoc(ds + init, d);
      StableResolve(ds, init, id);
      var j :| 0 <= j < |ds| && DeclaresTypedef(ds[j], id);
      assert (ds + init)[j] == ds[j];
      assert IsTypedefName(ds + init, id);
    }
  }

  lemma {:induction false} StableType(ds: seq<Decl>, extra: seq<Decl>, t: TypeExpr)
    requires Consistent(ds + extra) && NamedType(ds, t)
    ensures Resolve(ds + extra, t) == Resolve(ds, t)
  {
    if t.Alias? {
      StableResolve(ds, extra, t.id);
    }
  }

  lemma {:induction false} StableFunctionType(ds: seq<Decl>, extra: seq<Decl>, id: Ident)
    requires Consistent(ds + extra) && FunctionType(ds, id).Some?
    ensures FunctionType(ds + extra, id) == FunctionType(ds, id)
    decreases |extra|
  {
    if extra == [] {
      assert ds + extra == ds;
    } else {
      var init, d := extra[..|extra| - 1], extra[|extra| - 1];
      assert ds + extra == (ds + init) + [d];
      ConsistentSnoc(ds + init, d);
      StableFunctionType(ds, init, id);
      if DeclaresFunction(d, id) {
        FunctionTypeLast(ds + init, d);
      } else {
        FunctionTypeFrame(ds + init, [d], id);
      }
    }
  }

  /** In a consistent translation unit a function name is never also a typedef name. */
  lemma {:induction false} FunctionIsNotTypedef(ds: seq<Decl>, i: nat, id: Ident)
    requires Consistent(ds) && i < |ds| && DeclaresFunction(ds[i], id)
    ensures forall j :: 0 <= j < |ds| ==> !DeclaresTypedef(ds[j], id)
  {
    forall j | 0 <= j < |ds|
      ensures !DeclaresTypedef(ds[j], id)
    {
      if j < i {
        ConsistentAdmissible(ds, i);
        assert ds[..i][j] == ds[j];
      } else if j > i {
        ConsistentAdmissible(ds, j);
        assert ds[..j][i] == ds[i];
      }
    }
  }

  lemma {:induction false} ResolveSnocOther(ds: seq<Decl>, d: Decl, id: Ident)
    requires !DeclaresTypedef(d, id)
    ensures Resolve(ds + [d], Alias(id)) == Resolve(ds, Alias(id))
  {
    assert (ds + [d])[..|ds|] == ds;
  }

  /** No declaration in ds declares id, as a typedef or as a function. */
  predicate Unused(ds: seq<Decl>, id: Ident)
  {
    forall j :: 0 <= j < |ds| ==> !DeclaresTypedef(ds[j], id) && !DeclaresFunction(ds[j], id)
  }

  lemma {:induction false} UnusedSnoc(ds: seq<Decl>, d: Decl, id: Ident)
    requires Unused(ds, id) && DeclaredId(d) != id
    ensures Unused(ds + [d], id)
  {
    forall j | 0 <= j < |ds| + 1
      ensures !DeclaresTypedef((ds + [d])[j], id) && !DeclaresFunction((ds + [d])[j], id)
    {
      if j < |ds| { assert (ds + [d])[j] == ds[j]; }
    }
  }

  /** A typedef of an identifier not yet used may follow. */
  lemma {:induction false} FreshTypedefAdmissible(ds: seq<Decl>, n: Ident, t: TypeExpr)
    requires Unused(ds, n) && !Resolve(ds, t).Undeclared? && MembersDistinct(t)
    ensures Admissible(ds, Typedef(n, t))
  {
  }

  /** A first declaration of a function whose types are declared may follow.
      Being the first, it meets the redeclaration and linkage rules whatever
      its storage class. */
  lemma {:induction false} FreshFunctionAdmissible(ds: seq<Decl>, d: Decl)
    requires !d.Typedef? && Unused(ds, d.sig.fname)
    requires !Resolve(ds, d.sig.ret).Undeclared? && !Resolve(ds, d.sig.param).Undeclared?
    requires MembersDistinct(d.sig.ret) && MembersDistinct(d.sig.param)
    ensures Admissible(ds, d)
  {
    assert LastFunction(ds, d.sig.fname).None?;
    assert FirstFunction(ds, d.sig.fname).None?;
  }

  /** In a consistent translation unit every declared type name denotes a declared type. */
  lemma {:induction false} NamedTypeResolves(ds: seq<Decl>, t: TypeExpr)
    requires Consistent(ds) && NamedType(ds, t)
    ensures !Resolve(ds, t).Undeclared?
  {
    if t.Alias? {
      var j :| 0 <= j < |ds| && DeclaresTypedef(ds[j], t.id);
      var front := ds[..j + 1];
      assert front == ds[..j] + [ds[j]];
      assert ds == front + ds[j + 1..];
      assert DeclaresTypedef(front[j], t.id);
      StableResolve(front, ds[j + 1..], t.id);
      ResolveLastTypedef(ds[..j], t.id, ds[j].ty);
      ConsistentAdmissible(ds, j);
    }
  }

  /** A `static` function declaration the compiler accepts leaves the function
      with internal linkage. */
  lemma {:induction false} StaticDeclarationIsInternal(ds: seq<Decl>, d: Decl)
    requires !d.Typedef? && d.sig.storage == Static
    requires Consistent(ds + [d])
    ensures LinkageOf(ds + [d], d.sig.fname) == Some(Internal)
  {
    ConsistentSnoc(ds, d);
    var id := d.sig.fname;
    if LinkageOf(ds, id).Some? {
      LinkageFrame(ds, [d], id);
    } else {
      assert ds + [d] + [] == ds + [d];
      LinkageFirst(ds, d, []);
    }
  }

  // ---------------------------------------------------------------------------
  // What acceptance means.

  /** A unit is accepted exactly when each of its declarations is admissible
      after the ones before it. */
  lemma {:induction false} ConsistentEachAdmissible(ds: seq<Decl>)
    ensures Consistent(ds) <==> EachAdmissible(ds)
    decreases |ds|
  {
    if ds != [] {
      ConsistentEachAdmissible(ds[..|ds| - 1]);
      EachAdmissibleSnoc(ds);
    }
  }

  /** Each declaration is admissible exactly when those of the prefix are and
      the last one is admissible after them. */
  lemma EachAdmissibleSnoc(ds: seq<Decl>)
    requires ds != []
    ensures EachAdmissible(ds) <==> EachAdmissible(ds[..|ds| - 1]) && Admissible(ds[..|ds| - 1], ds[|ds| - 1])
  {
    var n := |ds| - 1;
    var front := ds[..n];
    if EachAdmissible(ds) {
      forall k | 0 <= k < n
        ensures Admissible(front[..k], front[k])
      {
        assert front[..k] == ds[..k] && front[k] == ds[k];
        assert Admissible(ds[..k], ds[k]);
      }
      assert Admissible(ds[..n], ds[n]);
    }
    if EachAdmissible(front) && Admissible(front, ds[n]) {
      forall k | 0 <= k < |ds|
        ensures Admissible(ds[..k], ds[k])
      {
        if k < n {
          assert front[..k] == ds[..k] && front[k] == ds[k];
          assert Admissible(front[..k], front[k]);
        }
      }
    }
  }

  /** An admissible declaration changes the meaning of nothing already
      declared: a redefined typedef name keeps its type, a redeclared function
      keeps its signature, and a `static` one ends up with internal linkage. */
  lemma {:induction false} AdmissibleKeepsMeaning(ds: seq<Decl>, d: Decl)
    requires Admissible(ds, d)
    ensures d.Typedef? && IsTypedefName(ds, d.name) ==> Resolve(ds + [d], Alias(d.name)) == Resolve(ds, Alias(d.name))
    ensures !d.Typedef? && FunctionType(ds, d.sig.fname).Some? ==> FunctionType(ds + [d], d.sig.fname) == FunctionType(ds, d.sig.fname)
    ensures !d.Typedef? && d.sig.storage == Static ==> LinkageOf(ds + [d], d.sig.fname) == Some(Internal)
  {
    if d.Typedef? {
      ResolveLastTypedef(ds, d.name, d.ty);
    } else {
      FunctionTypeLast(ds, d);
      LinkageAfter(ds, d);
    }
  }
}
