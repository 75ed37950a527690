/**
  Name mangling of keyargs.h, lines 10-12.

  Each of the three macros keyargs_struct_name, keyargs_func_name and
  keyargs_type_name pastes (ISO C11, section 6.10.3.3) a fixed prefix in front
  of the logical name. The three prefixes have the same length (14) and share
  the reserved stem "_keyargs_"; they differ at position 9.
*/
module Mangle {
  import opened Wrappers

  /** A C identifier, as its spelling. */
  type Ident = string

  const ArgsPrefix: string := "_keyargs_args_"
  const FuncPrefix: string := "_keyargs_func_"
  const TypePrefix: string := "_keyargs_type_"

  /** The part every generated name starts with. */
  const ReservedStem: string := "_keyargs_"

  const PrefixLength: nat := 14

  /** keyargs_struct_name(name): the typedef name of the argument struct. */
  function StructName(name: Ident): (r: Ident)
    ensures Demangle(r) == Some((ArgsKind, name))
  {
    PrefixesDiffer();
    assert (ArgsPrefix + name)[..PrefixLength] == ArgsPrefix && (ArgsPrefix + name)[PrefixLength..] == name;
    ArgsPrefix + name
  }

  /** keyargs_func_name(name): the name of the underlying C function. */
  function FuncName(name: Ident): (r: Ident)
    ensures Demangle(r) == Some((FuncKind, name))
  {
    PrefixesDiffer();
    assert (FuncPrefix + name)[..PrefixLength] == FuncPrefix && (FuncPrefix + name)[PrefixLength..] == name;
    FuncPrefix + name
  }

  /** keyargs_type_name(name): the typedef name of the return type. */
  function TypeName(name: Ident): (r: Ident)
    ensures Demangle(r) == Some((TypeKind, name))
  {
    PrefixesDiffer();
    assert (TypePrefix + name)[..PrefixLength] == TypePrefix && (TypePrefix + name)[PrefixLength..] == name;
    TypePrefix + name
  }

  /** The three namespaces the macros generate names in. */
  datatype Kind = ArgsKind | FuncKind | TypeKind

  function Mangled(k: Kind, name: Ident): Ident
  {
    match k
    case ArgsKind => StructName(name)
    case FuncKind => FuncName(name)
    case TypeKind => TypeName(name)
  }

  /** Recovers the namespace and the logical name from a generated identifier. */
  function Demangle(id: Ident): Option<(Kind, Ident)>
  {
    if |id| < PrefixLength then None
    else
      var prefix, rest := id[..PrefixLength], id[PrefixLength..];
      if prefix == ArgsPrefix then Some((ArgsKind, rest))
      else if prefix == FuncPrefix then Some((FuncKind, rest))
      else if prefix == TypePrefix then Some((TypeKind, rest))
      else None
  }

  /** The three prefixes are pairwise different. */
  lemma PrefixesDiffer()
    ensures ArgsPrefix != FuncPrefix && ArgsPrefix != TypePrefix && FuncPrefix != TypePrefix
  {
    assert ArgsPrefix[9] == 'a' && FuncPrefix[9] == 'f' && TypePrefix[9] == 't';
  }

  /** Demangle undoes every mangling. */
  lemma {:induction false} DemangleMangled(k: Kind, name: Ident)
    ensures Demangle(Mangled(k, name)) == Some((k, name))
  {
  }

  /** Every identifier Demangle accepts is the mangling it reports. */
  lemma {:induction false} MangledDemangle(id: Ident)
    ensures Demangle(id).Some? ==> Mangled(Demangle(id).value.0, Demangle(id).value.1) == id
  {
    if Demangle(id).Some? {
      assert id == id[..PrefixLength] + id[PrefixLength..];
    }
  }

  /** Mangling is injective over (namespace, name) pairs. */
  lemma {:induction false} MangledInjective(k1: Kind, n1: Ident, k2: Kind, n2: Ident)
    ensures Mangled(k1, n1) == Mangled(k2, n2) <==> k1 == k2 && n1 == n2
  {
    DemangleMangled(k1, n1);
    DemangleMangled(k2, n2);
  }

  /** Each of the three macros is injective. */
  lemma {:induction false} NamesInjective(a: Ident, b: Ident)
    ensures StructName(a) == StructName(b) ==> a == b
    ensures FuncName(a) == FuncName(b) ==> a == b
    ensures TypeName(a) == TypeName(b) ==> a == b
  {
    MangledInjective(ArgsKind, a, ArgsKind, b);
    MangledInjective(FuncKind, a, FuncKind, b);
    MangledInjective(TypeKind, a, TypeKind, b);
  }

  /** The three namespaces never collide, whatever the logical names. */
  lemma {:induction false} NamespacesDisjoint(a: Ident, b: Ident)
    ensures StructName(a) != FuncName(b)
    ensures StructName(a) != TypeName(b)
    ensures FuncName(a) != TypeName(b)
  {
    MangledInjective(ArgsKind, a, FuncKind, b);
    MangledInjective(ArgsKind, a, TypeKind, b);
    MangledInjective(FuncKind, a, TypeKind, b);
  }

  /** An identifier that does not start with the reserved stem is never a generated one. */
  lemma {:induction false} UserNamesNeverCollide(id: Ident, k: Kind, name: Ident)
    requires !(|id| >= |ReservedStem| && id[..|ReservedStem|] == ReservedStem)
    ensures id != Mangled(k, name)
  {
    var m := Mangled(k, name);
    assert m[..|ReservedStem|] == ReservedStem;
  }
}
