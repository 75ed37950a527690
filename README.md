# keyargs in Dafny

`keyargs.h` is a header of C preprocessor macros that lets a C function take
its arguments as a struct initializer, giving `.key = value` arguments,
ordinary positional arguments and optional arguments that default to zero.
This project models what the macros generate and what the generated code
means. The model is pure: datatypes, functions and lemmas.

- `Mangle` (`mangle.dfy`) models the three name-pasting macros. They build
  the identifiers `_keyargs_args_NAME`, `_keyargs_func_NAME` and
  `_keyargs_type_NAME`, using token pasting as in section 6.10.3.3 of ISO C11.
  `Demangle` is the inverse of this mapping.
- `CDecl` (`cdecl.dfy`) gives the C declarations the macros emit as a
  datatype: typedefs, prototypes, and definition heads with a storage class.
  It has three parts:
  - `Resolve` does typedef resolution. Each declaration that writes an
    anonymous `struct { ... }` makes one struct type, identified by the
    declaration's position. The macros write at most one per declaration.
  - `Consistent` is the subset of ISO C11's rules for a translation unit that
    the generated declarations touch. The members of a struct written in a
    declaration have distinct names (section 6.2.3 p1). A typedef may be
    redefined only to the same type (section 6.7 p3). Typedef names and
    function names share one name space. Every type a declaration names at
    its top level must already be declared. A function's redeclarations must
    agree (section 6.7 p4). `static` may not follow a declaration with
    external linkage: section 6.2.2 p7 makes that undefined, and compilers
    reject it. A function may have at most one definition (section 6.9 p3,
    p5).
  - `LinkageOf` gives a function's linkage (section 6.2.2 p3-p5).
- `Generate` (`generate.dfy`) models `keyargs_declare`,
  `keyargs_declare_clone`, `keyargs_define`, `keyargs_declare_static` and
  `keyargs_define_static`. Each is a function that returns what it expands
  to: a sequence of declarations, or for the two define macros a single
  definition head.
- `Initializer` (`initializer.dfy`) models the C11 initialisation of the
  flat argument struct (section 6.7.9). Entries are processed in order by a
  member cursor:
  - a designator moves the cursor (p17);
  - a later entry overrides an earlier one (p19);
  - members left out get their type's zero value (p10, p21);
  - an entry past the last member is an error (p2), and so is a designator
    that names no member (p7).

  A second definition (`Reference`) is proved equal to the cursor
  construction. It is a two-phase reference: first each entry's target
  member, then each member's last writer.
- `Call` (`call.dfy`) models `keyargs_call`: a call of the mangled function
  with a single compound-literal argument (section 6.5.2.5), and the
  evaluation of such a call against a unit of declarations.
- `Scenarios` (`scenarios.dfy`) holds worked examples with `add` and `greet`
  and a clone of `add`.

Types of members and argument values are abstract. The zero value of each
type is a parameter, `zero: TypeExpr -> V`.

The expansion of keyargs_call is a C11 compound literal. In C11 neither a
later entry for a member (section 6.7.9 p19) nor a positional entry after a
designator (p17) is an error, and the model follows C11: a later entry
overrides an earlier one, and a positional entry after `.m = v` fills the
member after `m`.

## Model

| member | source | states |
|---|---|---|
| Mangle.StructName | keyargs.h:10 | The struct name of a user name demangles to the struct kind and that user name. |
| Mangle.FuncName | keyargs.h:11 | The function name of a user name demangles to the function kind and that user name. |
| Mangle.TypeName | keyargs.h:12 | The type name of a user name demangles to the type kind and that user name. |
| Mangle.DemangleMangled | keyargs.h:10-12 | Demangling a pasted name gives back its kind and the original name. |
| Mangle.MangledDemangle | keyargs.h:10-12 | Any identifier that demangles is the pasted form of what it demangles to. |
| Mangle.MangledInjective | keyargs.h:10-12 | Two pasted names are equal if and only if their kinds and names are equal. |
| Mangle.NamesInjective | keyargs.h:10-12 | Each of the struct, function and type names is injective in the user's name. |
| Mangle.NamespacesDisjoint | keyargs.h:10-12 | A struct name never equals a function or type name, and a function name never equals a type name, whatever the two user names. |
| Mangle.UserNamesNeverCollide | keyargs.h:10-12 | An identifier that does not start with `_keyargs_` is never a generated name. |
| CDecl.Resolve | keyargs.h:15-16 | A resolved struct is the anonymous struct being resolved, or the struct written by an earlier typedef. An undeclared result comes only from a typedef name. |
| CDecl.LinkageOf | keyargs.h:17 | A function has no linkage exactly when no declaration declares it. Otherwise its linkage is internal if its first declaration is `static`, external if not. |
| CDecl.ConsistentEachAdmissible | keyargs.h:14-45 | A unit is accepted if and only if each of its declarations is admissible after the declarations before it. |
| CDecl.AdmissibleKeepsMeaning | keyargs.h:14-45 | An admissible typedef redefinition leaves its name's meaning unchanged. An admissible redeclaration leaves a declared function's resolved signature unchanged. After an admissible `static` declaration the function has internal linkage. |
| CDecl.StableResolve | keyargs.h:15-16 | In an accepted unit, once a typedef name is declared, later declarations never change what it denotes. |
| CDecl.StableFunctionType | keyargs.h:17 | In an accepted unit, once a function is declared, later declarations never change its resolved signature. |
| CDecl.NamedTypeResolves | keyargs.h:16 | In an accepted unit, a builtin type or a declared typedef name resolves to a declared type. |
| CDecl.StaticDeclarationIsInternal | keyargs.h:39 | An accepted `static` function declaration leaves the function with internal linkage. |
| Generate.Declare | keyargs.h:14-17 | keyargs_declare emits three items, in order. The first is a typedef of an anonymous struct with the given fields under the struct name. The second is a typedef of the return type under the type name. The third is a prototype without storage class, under the function name, returning the return type and taking the struct name. |
| Generate.DeclareClone | keyargs.h:22-25 | keyargs_declare_clone(new, old) emits three items, in order. The new struct name is a typedef of the old struct name. The new type name is a typedef of the old type name. The prototype under the new function name returns the new type name and takes the new struct name. |
| Generate.Define | keyargs.h:30-31 | keyargs_define(f) emits a definition head without storage class, under f's function name. It returns f's type name and takes f's struct name as a parameter called `args`. |
| Generate.DeclareStatic | keyargs.h:36-39 | keyargs_declare_static emits the two typedefs of keyargs_declare unchanged, then keyargs_declare's prototype with `static` added. |
| Generate.DefineStatic | keyargs.h:44-45 | keyargs_define_static emits keyargs_define's head with `static` added. |
| Generate.DeclareItems | keyargs.h:14-17 | After keyargs_declare, the struct name denotes the new struct and the type name denotes the return type, both declared. The function is declared and takes that struct. With a non-anonymous return type, its resolved signature is (return type, that struct). |
| Generate.DeclareMeaning | keyargs.h:14-17 | In any accepted unit containing keyargs_declare(ret, f, ...), f's struct and type names are declared typedef names, and the struct name denotes the struct declared there. Its fields have distinct names. When `ret` is a builtin type or a declared typedef name, the type name denotes what `ret` denotes. f's function is declared and takes that struct. For a non-anonymous `ret`, its signature is (type name, struct). All of this holds however much follows. |
| Generate.DeclareAccepted | keyargs.h:14-17 | keyargs_declare on a name unused so far, with a declared return type and fields of distinct names, keeps an accepted unit accepted. |
| Generate.DeclareKeepsOthersFresh | keyargs.h:14-17 | keyargs_declare(…, f, …) uses none of the generated names of any other name. |
| Generate.RedeclareRejected | keyargs.h:14-17 | Declaring the same name a second time, with keyargs_declare or keyargs_declare_static in either position, gives a unit the compiler rejects. |
| Generate.DuplicateMemberRejected | keyargs.h:14-17 | keyargs_declare or keyargs_declare_static with two fields of one name gives a unit the compiler rejects, however the unit continues. |
| Generate.DeclareLinkage | keyargs.h:17 | The first keyargs_declare of a name gives its function external linkage. The first keyargs_declare_static gives it internal linkage. |
| Generate.StaticVariantsOnlyAddStatic | keyargs.h:36-39 | keyargs_declare_static and keyargs_define_static emit exactly what keyargs_declare and keyargs_define emit, except that function declarations carry `static`. |
| Generate.DeclareStaticIsInternal | keyargs.h:36-39 | In an accepted unit, a function declared by keyargs_declare_static has internal linkage. |
| Generate.CloneItems | keyargs.h:22-25 | keyargs_declare_clone(g, f) makes g's struct and type names denote what f's denote. g's function gets the signature (f's type, f's struct). |
| Generate.CloneMeaning | keyargs.h:22-25 | After keyargs_declare(ret, f, ...) and keyargs_declare_clone(g, f), g's struct name denotes the same struct as f's, so no new struct exists. g's type name is declared and denotes what f's does. g's function returns that type and takes that struct, and f's function takes it too. For a non-anonymous `ret`, g's function has exactly f's resolved signature. The two function names differ when g ≠ f. |
| Generate.CloneAccepted | keyargs.h:22-25 | Cloning a declared name to an unused name keeps an accepted unit accepted. |
| Generate.CloneBeforeDeclareRejected | keyargs.h:22-25 | Cloning a name whose struct name is not declared yet gives a rejected unit. |
| Generate.DefineAccepted | keyargs.h:30-31 | keyargs_define after keyargs_declare, or keyargs_define_static after keyargs_declare_static, is accepted if the function is not yet defined. |
| Generate.DefineAfterCloneAccepted | keyargs.h:22-25 | keyargs_define(g) after keyargs_declare_clone(g, f) is accepted, whatever f's return type, and its head resolves to the signature g was declared with. For a non-anonymous return type that is f's signature. |
| Generate.DefineDeclaredAccepted | keyargs.h:30-31 | keyargs_define is accepted after a matching, not yet defined declaration. |
| Generate.DefineBeforeDeclareRejected | keyargs.h:30-31 | keyargs_define, or keyargs_define_static (lines 44-45), before the name's type name is declared gives a rejected unit. |
| Generate.DefineStaticAfterDeclareRejected | keyargs.h:44-45 | keyargs_define_static after a plain keyargs_declare is rejected. |
| Generate.DefineTwiceRejected | keyargs.h:30-31 | Two definitions of the same name are rejected. |
| Generate.AnonymousReturnTypeBreaksDefine | keyargs.h:14-17 | With an anonymous-struct return type, the prototype's return type and the type name denote two different structs, so keyargs_define(f) is rejected. |
| Initializer.Step | keyargs.h:50 | One entry keeps one value per member and the cursor within the members. An error names that entry. |
| Initializer.Construct | keyargs.h:50 | The built struct has one value per member. An error names an entry of the list. Its full meaning is stated by ConstructIsReference. |
| Initializer.MemberIndex | keyargs.h:50 | A designator names the first member with that name, and names none if no member has it. |
| Initializer.Run | keyargs.h:50 | The cursor construction keeps one value per member and the cursor within the members. An error names an entry of the list. |
| Initializer.RunAgreesWithTargets | keyargs.h:50 | The cursor construction fails exactly when and where the reference target computation fails. When it succeeds, every member holds the value of its last writer, or zero. |
| Initializer.ConstructIsReference | keyargs.h:50 | Construction equals the two-phase reference: each entry's target member, then each member's last writer's value, or its zero. |
| Initializer.OmittedMembersAreZero | keyargs.h:50 | A member no entry writes takes its type's zero value. |
| Initializer.PositionalPrefix | keyargs.h:50 | Positional values for the first k members fill those members in order. Every later member is zero. |
| Initializer.PositionalComplete | keyargs.h:50 | One positional value per member gives exactly those values. |
| Initializer.ExcessPositionalRejected | keyargs.h:50 | More positional values than members are rejected at the first excess entry. |
| Initializer.MemberIndexUnique | keyargs.h:50 | With unique member names, a designator for a member's name selects that member. |
| Initializer.DesignatedOnly | keyargs.h:50 | Designated entries for distinct members leave each named member with its value and every other member at zero. |
| Initializer.DesignatedEqualsPositional | keyargs.h:50 | Designating all members, in any order, gives the same struct as giving them positionally in declaration order. |
| Initializer.LaterDesignatorOverrides | keyargs.h:50 | A later designator for a member replaces its value and changes nothing else. |
| Initializer.PositionalAfterDesignator | keyargs.h:50 | A positional entry after `.m = v` fills the member after m, or is rejected if m is the last member. |
| Initializer.UnknownMemberRejected | keyargs.h:50 | A designator naming no member makes construction fail, at that entry or earlier. |
| Call.KeyargsCall | keyargs.h:50 | keyargs_call(f, inits) calls f's function name with exactly one argument: a compound literal of f's struct name holding inits. |
| Call.Evaluate | keyargs.h:50 | Calling an undeclared function is an error. A call succeeds exactly when the function is declared, there is one argument, its type resolves to the struct the function takes, and the initialisation succeeds. The function is then entered with the struct built by the initialisation. |
| Call.CallMeaning | keyargs.h:50 | After keyargs_declare in an accepted unit, whatever the return type, keyargs_call(f, inits) enters f's function with the struct that C11 initialisation builds from inits, or fails with that initialisation's error. The declared fields have distinct names. |
| Call.CloneCallLaw | keyargs.h:50 | After keyargs_declare_clone(g, f), whatever f's return type, calling g or f with the same entries builds the same struct. Each call enters its own function. |
| Call.CallBeforeDeclareRejected | keyargs.h:50 | Calling a name whose function is not declared is an error. |
| Scenarios.AddPositional | keyargs.h:50 | call(add, 3, 4) enters add with a = 3, b = 4, and the example body returns 7 on the argument passed. |
| Scenarios.AddDesignated | keyargs.h:50 | call(add, .b = 5, .a = 2) enters add with a = 2, b = 5, and the example body returns 7 on the argument passed. |
| Scenarios.AddOmitted | keyargs.h:50 | call(add, .a = 10) leaves b at zero, and the example body returns 10 on the argument passed. |
| Scenarios.AddTooMany | keyargs.h:50 | call(add, 1, 2, 3) is rejected at the third entry. |
| Scenarios.AddUnknownMember | keyargs.h:50 | call(add, .c = 1) is rejected at the first entry. |
| Scenarios.GreetOmitted | keyargs.h:50 | call(greet, .name = "x") leaves the int member at zero. |
| Scenarios.AddUnitAccepted | keyargs.h:30-31 | keyargs_declare(int, add, ...) followed by keyargs_define(add) is an accepted unit. |
| Scenarios.CloneUnitAccepted | keyargs.h:22-25 | keyargs_declare(int, add, ...) followed by keyargs_declare_clone(add2, add) is an accepted unit. |
| Scenarios.CloneScenario | keyargs.h:22-25 | call(add2, .a = 1, .b = 2) and call(add, .a = 1, .b = 2) build the same struct, and each enters its own function. |

## Left out

- The include guard on keyargs.h:1-3 defines a flag and has no logic.
- Preprocessor tokenisation and the splitting of `__VA_ARGS__` at commas are not modelled. Field lists and initializer lists are given as sequences that are already structured.
- C type checking of member types, and of whether an initializer value fits its member, is left out. Types and values are abstract.
- Nested aggregates and brace elision (section 6.7.9 p20) are not modelled, because argument structs are flat.
- Linking across translation units is left out. `static` is modelled only as a storage class and through the linkage rules of one unit.
- Empty field lists and empty call lists are standard C11 in neither case: section 6.7.2.1 p8 and the grammar of section 6.7.9 rule them out. What a compiler does with them varies. The model neither forbids them nor says anything about them in particular.
- The function bodies users write after keyargs_define are runtime code, so they are not modelled. The scenarios' `AddBody` stands for the one the examples use. Floating-point zero values are not modelled, and `zero` stays abstract.
- Calling keyargs_call twice with the same arguments always gives the same result because `Evaluate` is a function, so no separate lemma states it.
- Generate.DefineAccepted requires a return type other than an anonymous struct. With one, the prototype and the return-type typedef each write their own struct type, so the definition head disagrees with the prototype and the compiler rejects it. Generate.AnonymousReturnTypeBreaksDefine shows this.
- Generate.CloneMeaning, Generate.DefineAfterCloneAccepted, Generate.DeclareItems and Generate.DeclareMeaning state the full resolved return type of the function only for a return type other than an anonymous struct, for the same reason: with one, the signatures really differ.
- Generate.DeclareAccepted requires the return type to be a builtin type or an already declared typedef name. So it leaves out return types that are anonymous structs or that name the struct being declared.
- Generate.DeclareAccepted does not require the fields' member types to be declared, because acceptance checks only the types a declaration names at its top level. So a field of an unknown typedef name, which a compiler rejects, is accepted by the model.
- CDecl.Resolve gives two anonymous structs written in one declaration the same identity. C makes them two types, but the macros never write more than one struct per declaration.
