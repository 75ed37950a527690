/**
  The initializer list of keyargs_call (keyargs.h line 50) is the brace list
  of a compound literal, so the argument struct is built by the aggregate
  initialisation rule of ISO C11, section 6.7.9, for a flat struct:
  - p17: a positional initializer goes to the member after the one most
    recently initialised (the first member at the start); a designator
    `.m = v` moves the current position to m;
  - p19: initializers take effect in list order, a later one for a member
    overriding an earlier one;
  - p21 and p10: members no initializer names hold their type's zero value;
  - p2: an initializer past the last member is a constraint violation;
  - p7: a designator must name a member of the struct.
  Values are abstract (type V) and the zero value of each member type is a
  parameter.
*/
module Initializer {
  import opened Wrappers
  import opened Mangle
  import opened CDecl

  /** One entry of the brace list: `v` or `.field = v`. */
  datatype Init<V> = Pos(value: V) | Desig(field: Ident, value: V)

  datatype InitError =
    | ExcessInitializer(index: nat)          // section 6.7.9 p2
    | UnknownMember(index: nat, field: Ident) // section 6.7.9 p7

  /** The first member named f. */
  function MemberIndex(ms: seq<Member>, f: Ident): (r: Option<nat>)
    ensures r.Some? ==> r.value < |ms| && ms[r.value].name == f
    ensures r.Some? ==> forall j :: 0 <= j < r.value ==> ms[j].name != f
    ensures r.None? ==> forall j :: 0 <= j < |ms| ==> ms[j].name != f
  {
    if ms == [] then None
    else if ms[0].name == f then Some(0)
    else match MemberIndex(ms[1..], f)
      case None => None
      case Some(k) => Some(k + 1)
  }

  /** The record every member of which holds its zero value. */
  function Zeros<V>(ms: seq<Member>, zero: TypeExpr -> V): (r: seq<V>)
    ensures |r| == |ms|
    ensures forall j :: 0 <= j < |ms| ==> r[j] == zero(ms[j].ty)
  {
    seq(|ms|, j requires 0 <= j < |ms| => zero(ms[j].ty))
  }

  /** The state of an initialisation: the current position and the record so far. */
  datatype Progress<V> = Progress(cursor: nat, record: seq<V>)

  /** Applies the initializer x, at position i of the list. */
  function Step<V>(ms: seq<Member>, st: Progress<V>, x: Init<V>, i: nat): (r: Result<Progress<V>, InitError>)
    requires |st.record| == |ms|
    ensures r.Ok? ==> |r.value.record| == |ms| && r.value.cursor <= |ms|
    ensures r.Err? ==> r.error.index == i
  {
    match x
    case Pos(v) =>
      if st.cursor < |ms| then Ok(Progress(st.cursor + 1, st.record[st.cursor := v]))
      else Err(ExcessInitializer(i))
    case Desig(f, v) =>
      match MemberIndex(ms, f)
      case None => Err(UnknownMember(i, f))
      case Some(k) => Ok(Progress(k + 1, st.record[k := v]))
  }

  /** The state after the whole list, or the first error. */
  function Run<V>(ms: seq<Member>, inits: seq<Init<V>>, zero: TypeExpr -> V): (r: Result<Progress<V>, InitError>)
    decreases |inits|
    ensures r.Ok? ==> |r.value.record| == |ms| && r.value.cursor <= |ms|
    ensures r.Err? ==> r.error.index < |inits|
  {
    if inits == [] then Ok(Progress(0, Zeros(ms, zero)))
    else
      match Run(ms, inits[..|inits| - 1], zero)
      case Err(e) => Err(e)
      case Ok(st) => Step(ms, st, inits[|inits| - 1], |inits| - 1)
  }

  /** The struct value `(S){ inits }` for a struct S with members ms. */
  function Construct<V>(ms: seq<Member>, inits: seq<Init<V>>, zero: TypeExpr -> V): (r: Result<seq<V>, InitError>)
    ensures r.Ok? ==> |r.value| == |ms|
    ensures r.Err? ==> r.error.index < |inits|
  {
    match Run(ms, inits, zero)
    case Err(e) => Err(e)
    case Ok(st) => Ok(st.record)
  }

  // ---------------------------------------------------------------------------
  // A reference semantics that separates where each initializer goes
  // (section 6.7.9 p17) from which value a member ends up with (p19, p21).

  /** The member each initializer of the list initialises, or the first error. */
  function Targets<V>(ms: seq<Member>, inits: seq<Init<V>>): (r: Result<seq<nat>, InitError>)
    decreases |inits|
    ensures r.Ok? ==> |r.value| == |inits| && forall i :: 0 <= i < |inits| ==> r.value[i] < |ms|
  {
    if inits == [] then Ok([])
    else
      match Targets(ms, inits[..|inits| - 1])
      case Err(e) => Err(e)
      case Ok(ts) =>
        var i := |inits| - 1;
        match inits[i]
        case Pos(_) =>
          var t := if i == 0 then 0 else ts[i - 1] + 1;
          if t < |ms| then Ok(ts + [t]) else Err(ExcessInitializer(i))
        case Desig(f, _) =>
          match MemberIndex(ms, f)
          case None => Err(UnknownMember(i, f))
          case Some(k) => Ok(ts + [k])
  }

  /** The last initializer that targets member j. */
  function LastWriter(ts: seq<nat>, j: nat): (r: Option<nat>)
    ensures r.Some? ==> r.value < |ts| && ts[r.value] == j
    ensures r.Some? ==> forall i :: r.value < i < |ts| ==> ts[i] != j
    ensures r.None? ==> forall i :: 0 <= i < |ts| ==> ts[i] != j
  {
    if ts == [] then None
    else if ts[|ts| - 1] == j then Some(|ts| - 1)
    else LastWriter(ts[..|ts| - 1], j)
  }

  /** Member j holds the value of the last initializer for it, or its zero value. */
  function MemberValue<V>(ms: seq<Member>, inits: seq<Init<V>>, ts: seq<nat>, zero: TypeExpr -> V, j: nat): V
    requires |ts| == |inits| && j < |ms|
  {
    match LastWriter(ts, j)
    case Some(i) => inits[i].value
    case None => zero(ms[j].ty)
  }

  function Reference<V>(ms: seq<Member>, inits: seq<Init<V>>, zero: TypeExpr -> V): Result<seq<V>, InitError>
  {
    match Targets(ms, inits)
    case Err(e) => Err(e)
    case Ok(ts) => Ok(seq(|ms|, j requires 0 <= j < |ms| => MemberValue(ms, inits, ts, zero, j)))
  }

  /** The position after the last initialised member. */
  function NextCursor(ts: seq<nat>): nat
  {
    if ts == [] then 0 else ts[|ts| - 1] + 1
  }

  lemma {:induction false} RunAgreesWithTargets<V>(ms: seq<Member>, inits: seq<Init<V>>, zero: TypeExpr -> V)
    ensures Run(ms, inits, zero).Ok? <==> Targets(ms, inits).Ok?
    ensures Run(ms, inits, zero).Err? ==> Run(ms, inits, zero).error == Targets(ms, inits).error
    ensures Run(ms, inits, zero).Ok? ==>
      var st, ts := Run(ms, inits, zero).value, Targets(ms, inits).value;
      && st.cursor == NextCursor(ts)
      && forall j :: 0 <= j < |ms| ==> st.record[j] == MemberValue(ms, inits, ts, zero, j)
    decreases |inits|
  {
    if inits != [] {
      var init, x, i := inits[..|inits| - 1], inits[|inits| - 1], |inits| - 1;
      RunAgreesWithTargets(ms, init, zero);
      if Run(ms, inits, zero).Ok? {
        var st0, ts0 := Run(ms, init, zero).value, Targets(ms, init).value;
        var st, ts := Run(ms, inits, zero).value, Targets(ms, inits).value;
        assert i > 0 ==> NextCursor(ts0) == ts0[i - 1] + 1;
        var t := ts[i];
        assert ts == ts0 + [t];
        forall j | 0 <= j < |ms|
          ensures st.record[j] == MemberValue(ms, inits, ts, zero, j)
        {
          if j != t {
            assert ts[..i] == ts0;
            assert LastWriter(ts, j) == LastWriter(ts0, j);
            if LastWriter(ts0, j).Some? {
              assert inits[LastWriter(ts0, j).value] == init[LastWriter(ts0, j).value];
            }
          }
        }
      }
    }
  }

  /** Construct computes exactly the reference semantics. */
  lemma {:induction false} ConstructIsReference<V>(ms: seq<Member>, inits: seq<Init<V>>, zero: TypeExpr -> V)
    ensures Construct(ms, inits, zero) == Reference(ms, inits, zero)
  {
    RunAgreesWithTargets(ms, inits, zero);
    if Run(ms, inits, zero).Ok? {
      var r := Construct(ms, inits, zero).value;
      var ts := Targets(ms, inits).value;
      assert r == seq(|ms|, j requires 0 <= j < |ms| => MemberValue(ms, inits, ts, zero, j));
    }
  }

  /** Section 6.7.9 p21: a member no initializer targets holds its zero value. */
  lemma {:induction false} OmittedMembersAreZero<V>(ms: seq<Member>, inits: seq<Init<V>>, zero: TypeExpr -> V, j: nat)
    requires Targets(ms, inits).Ok? && j < |ms|
    requires forall i :: 0 <= i < |inits| ==> Targets(ms, inits).value[i] != j
    ensures Construct(ms, inits, zero).Ok?
    ensures Construct(ms, inits, zero).value[j] == zero(ms[j].ty)
  {
    ConstructIsReference(ms, inits, zero);
  }

  // ---------------------------------------------------------------------------
  // Positional lists.

  /** `{ v0, v1, ... }`. */
  function Positional<V>(vs: seq<V>): (r: seq<Init<V>>)
    ensures |r| == |vs| && forall i :: 0 <= i < |vs| ==> r[i] == Pos(vs[i])
  {
    seq(|vs|, i requires 0 <= i < |vs| => Pos(vs[i]))
  }

  lemma {:induction false} PositionalRun<V>(ms: seq<Member>, vs: seq<V>, zero: TypeExpr -> V)
    requires |vs| <= |ms|
    ensures Run(ms, Positional(vs), zero).Ok?
    ensures Run(ms, Positional(vs), zero).value.cursor == |vs|
    ensures forall j :: 0 <= j < |ms| ==>
      Run(ms, Positional(vs), zero).value.record[j] == if j < |vs| then vs[j] else zero(ms[j].ty)
    decreases |vs|
  {
    if vs != [] {
      var init := vs[..|vs| - 1];
      assert Positional(vs)[..|vs| - 1] == Positional(init);
      PositionalRun(ms, init, zero);
    }
  }

  /** Values given in declaration order fill a prefix of the members; every
      later member holds its zero value (section 6.7.9 p17 and p21). */
  lemma {:induction false} PositionalPrefix<V>(ms: seq<Member>, vs: seq<V>, zero: TypeExpr -> V)
    requires |vs| <= |ms|
    ensures Construct(ms, Positional(vs), zero).Ok?
    ensures forall j :: 0 <= j < |ms| ==>
      Construct(ms, Positional(vs), zero).value[j] == if j < |vs| then vs[j] else zero(ms[j].ty)
  {
    PositionalRun(ms, vs, zero);
  }

  /** One value for each member, in order, gives exactly those values. */
  lemma {:induction false} PositionalComplete<V>(ms: seq<Member>, vs: seq<V>, zero: TypeExpr -> V)
    requires |vs| == |ms|
    ensures Construct(ms, Positional(vs), zero) == Ok(vs)
  {
    PositionalPrefix(ms, vs, zero);
    assert Construct(ms, Positional(vs), zero).value == vs;
  }

  /** More values than members is rejected at the first value too many (section 6.7.9 p2). */
  lemma {:induction false} ExcessPositionalRejected<V>(ms: seq<Member>, vs: seq<V>, zero: TypeExpr -> V)
    requires |vs| > |ms|
    ensures Construct(ms, Positional(vs), zero) == Err(ExcessInitializer(|ms|))
    decreases |vs|
  {
    var init := vs[..|vs| - 1];
    assert Positional(vs)[..|vs| - 1] == Positional(init);
    if |vs| == |ms| + 1 {
      PositionalRun(ms, init, zero);
    } else {
      ExcessPositionalRejected(ms, init, zero);
    }
  }

  // ---------------------------------------------------------------------------
  // Designated lists.

  lemma {:induction false} MemberIndexUnique(ms: seq<Member>, k: nat)
    requires UniqueNames(ms) && k < |ms|
    ensures MemberIndex(ms, ms[k].name) == Some(k)
  {
  }

  /** A list of designators `.m = v` only, where `order[i]` is the member the
      i-th designator names: each named member holds its given value, every
      other member its zero value, in whatever order the list is written. */
  lemma {:induction false} DesignatedOnly<V>(ms: seq<Member>, inits: seq<Init<V>>, order: seq<nat>, vs: seq<V>, zero: TypeExpr -> V)
    requires UniqueNames(ms) && |vs| == |ms| && |order| == |inits|
    requires forall i :: 0 <= i < |inits| ==> order[i] < |ms| && inits[i] == Desig(ms[order[i]].name, vs[order[i]])
    ensures Construct(ms, inits, zero).Ok?
    ensures forall k :: 0 <= k < |ms| ==>
      Construct(ms, inits, zero).value[k] == if k in order then vs[k] else zero(ms[k].ty)
    decreases |inits|
  {
    if inits != [] {
      var n := |inits| - 1;
      var o := order[n];
      DesignatedOnly(ms, inits[..n], order[..n], vs, zero);
      MemberIndexUnique(ms, o);
      forall k | 0 <= k < |ms|
        ensures (k in order) == (k in order[..n] || k == o)
      {
        assert order == order[..n] + [o];
      }
    }
  }

  /** Every member designated, in any order and with repeats allowed, gives
      the same record as all members given positionally in declaration order. */
  lemma {:induction false} DesignatedEqualsPositional<V>(ms: seq<Member>, inits: seq<Init<V>>, order: seq<nat>, vs: seq<V>, zero: TypeExpr -> V)
    requires UniqueNames(ms) && |vs| == |ms| && |order| == |inits|
    requires forall i :: 0 <= i < |inits| ==> order[i] < |ms| && inits[i] == Desig(ms[order[i]].name, vs[order[i]])
    requires forall k :: 0 <= k < |ms| ==> k in order
    ensures Construct(ms, inits, zero) == Construct(ms, Positional(vs), zero) == Ok(vs)
  {
    DesignatedOnly(ms, inits, order, vs, zero);
    PositionalComplete(ms, vs, zero);
    assert Construct(ms, inits, zero).value == vs;
  }

  // ---------------------------------------------------------------------------
  // Cursor rules and errors.

  /** Section 6.7.9 p19: a later designator for a member overrides what was
      there, and nothing else changes. */
  lemma {:induction false} LaterDesignatorOverrides<V>(ms: seq<Member>, inits: seq<Init<V>>, f: Ident, v: V, zero: TypeExpr -> V)
    requires Construct(ms, inits, zero).Ok? && MemberIndex(ms, f).Some?
    ensures Construct(ms, inits + [Desig(f, v)], zero)
         == Ok(Construct(ms, inits, zero).value[MemberIndex(ms, f).value := v])
  {
    assert (inits + [Desig(f, v)])[..|inits|] == inits;
  }

  /** Section 6.7.9 p17: a positional value after `.m = v` initialises the
      member after m, and is rejected when m is the last member. */
  lemma {:induction false} PositionalAfterDesignator<V>(ms: seq<Member>, inits: seq<Init<V>>, f: Ident, v: V, w: V, zero: TypeExpr -> V)
    requires Construct(ms, inits, zero).Ok? && MemberIndex(ms, f).Some?
    ensures var k, r := MemberIndex(ms, f).value, Construct(ms, inits, zero).value;
      Construct(ms, inits + [Desig(f, v), Pos(w)], zero)
      == if k + 1 < |ms| then Ok(r[k := v][k + 1 := w]) else Err(ExcessInitializer(|inits| + 1))
  {
    var l1 := inits + [Desig(f, v)];
    var l2 := l1 + [Pos(w)];
    assert inits + [Desig(f, v), Pos(w)] == l2;
    var k, st := MemberIndex(ms, f).value, Run(ms, inits, zero).value;
    assert l1[..|inits|] == inits;
    assert Run(ms, l1, zero) == Step(ms, st, Desig(f, v), |inits|);
    var st1 := Progress(k + 1, st.record[k := v]);
    assert Run(ms, l1, zero) == Ok(st1);
    assert l2[..|l1|] == l1;
    assert Run(ms, l2, zero) == Step(ms, st1, Pos(w), |l1|);
  }

  /** A designator that names no member makes the list invalid (section 6.7.9 p7);
      the error reported is there or at an earlier entry. */
  lemma {:induction false} UnknownMemberRejected<V>(ms: seq<Member>, inits: seq<Init<V>>, i: nat, zero: TypeExpr -> V)
    requires i < |inits| && inits[i].Desig? && MemberIndex(ms, inits[i].field).None?
    ensures Construct(ms, inits, zero).Err?
    ensures Construct(ms, inits, zero).error.index <= i
    decreases |inits|
  {
    var n := |inits| - 1;
    if i < n {
      assert inits[..n][i] == inits[i];
      UnknownMemberRejected(ms, inits[..n], i, zero);
    }
  }
}
