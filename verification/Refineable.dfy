// What crates/derive_refineable/src/derive_refineable.rs generates, for structs of every shape: partial
// updates of arbitrarily nested structs, and the cascades of crates/refineable/src/refineable.rs that
// merge them. Values of the plain fields are of any type with equality.
module Refinements {
  import opened Options

  /** The fields of a struct: a regular field with the default of its type, an `Option` field, or a nested
      struct marked as refineable. */
  datatype Schema<V> = Regular(default: V) | Optional | Struct(fields: seq<Schema<V>>)

  datatype Val<V> = Plain(value: V) | Maybe(option: Option<V>) | Record(fields: seq<Val<V>>)

  /** A refinement: an optional override for every plain field. */
  datatype Ref<V> = Patch(override: Option<V>) | Patches(fields: seq<Ref<V>>)

  ghost predicate IsVal<V>(s: Schema<V>, x: Val<V>) {
    match s
    case Regular(_) => x.Plain?
    case Optional => x.Maybe?
    case Struct(fs) => x.Record? && |x.fields| == |fs| && forall i :: 0 <= i < |fs| ==> IsVal(fs[i], x.fields[i])
  }

  ghost predicate IsRef<V>(s: Schema<V>, r: Ref<V>) {
    match s
    case Regular(_) | Optional => r.Patch?
    case Struct(fs) => r.Patches? && |r.fields| == |fs| && forall i :: 0 <= i < |fs| ==> IsRef(fs[i], r.fields[i])
  }

  // ----- The generated functions -----

  /** `refine` on a struct. */
  function Refine<V>(s: Schema<V>, x: Val<V>, r: Ref<V>): (y: Val<V>)
    requires IsVal(s, x) && IsRef(s, r)
    ensures IsVal(s, y)
  {
    match s
    case Regular(_) => if r.override.Some? then Plain(r.override.value) else x
    case Optional => if r.override.Some? then Maybe(r.override) else x
    case Struct(fs) => Record(seq(|fs|, i requires 0 <= i < |fs| => Refine(fs[i], x.fields[i], r.fields[i])))
  }

  /** `refine` on a refinement. */
  function Merge<V>(s: Schema<V>, a: Ref<V>, b: Ref<V>): (c: Ref<V>)
    requires IsRef(s, a) && IsRef(s, b)
    ensures IsRef(s, c)
  {
    match s
    case Regular(_) | Optional => if b.override.Some? then b else a
    case Struct(fs) => Patches(seq(|fs|, i requires 0 <= i < |fs| => Merge(fs[i], a.fields[i], b.fields[i])))
  }

  /** `is_superset_of` on a struct. */
  predicate Contains<V(==)>(s: Schema<V>, x: Val<V>, r: Ref<V>)
    requires IsVal(s, x) && IsRef(s, r)
  {
    match s
    case Regular(_) => r.override.Some? ==> x.value == r.override.value
    case Optional => r.override.Some? ==> x.option == r.override
    case Struct(fs) => forall i :: 0 <= i < |fs| ==> Contains(fs[i], x.fields[i], r.fields[i])
  }

  /** `is_superset_of` on a refinement. */
  predicate Includes<V(==)>(s: Schema<V>, a: Ref<V>, b: Ref<V>)
    requires IsRef(s, a) && IsRef(s, b)
  {
    match s
    case Regular(_) | Optional => b.override.Some? ==> a.override == b.override
    case Struct(fs) => forall i :: 0 <= i < |fs| ==> Includes(fs[i], a.fields[i], b.fields[i])
  }

  /** `subtract` on a struct. */
  function Subtract<V(==)>(s: Schema<V>, x: Val<V>, r: Ref<V>): (d: Ref<V>)
    requires IsVal(s, x) && IsRef(s, r)
    ensures IsRef(s, d)
  {
    match s
    case Regular(_) => if r.override.Some? && x.value == r.override.value then Patch(None) else Patch(Some(x.value))
    case Optional => if x.option == r.override then Patch(None) else Patch(x.option)
    case Struct(fs) => Patches(seq(|fs|, i requires 0 <= i < |fs| => Subtract(fs[i], x.fields[i], r.fields[i])))
  }

  /** `subtract` on a refinement. */
  function Minus<V(==)>(s: Schema<V>, a: Ref<V>, b: Ref<V>): (d: Ref<V>)
    requires IsRef(s, a) && IsRef(s, b)
    ensures IsRef(s, d)
  {
    match s
    case Regular(_) | Optional => if a.override == b.override then Patch(None) else a
    case Struct(fs) => Patches(seq(|fs|, i requires 0 <= i < |fs| => Minus(fs[i], a.fields[i], b.fields[i])))
  }

  predicate IsEmpty<V>(s: Schema<V>, r: Ref<V>)
    requires IsRef(s, r)
  {
    match s
    case Regular(_) | Optional => r.override.None?
    case Struct(fs) => forall i :: 0 <= i < |fs| ==> IsEmpty(fs[i], r.fields[i])
  }

  /** `is_some`, which asks the fields for theirs. */
  predicate IsSome<V>(s: Schema<V>, r: Ref<V>)
    requires IsRef(s, r)
  {
    match s
    case Regular(_) | Optional => r.override.Some?
    case Struct(fs) => exists i :: 0 <= i < |fs| && IsSome(fs[i], r.fields[i])
  }

  /** `Default` for refinements. */
  function Empty<V>(s: Schema<V>): (r: Ref<V>)
    ensures IsRef(s, r)
  {
    match s
    case Regular(_) | Optional => Patch(None)
    case Struct(fs) => Patches(seq(|fs|, i requires 0 <= i < |fs| => Empty(fs[i])))
  }

  /** The struct all of whose plain fields, at any depth, have the default of their type. */
  function Default<V>(s: Schema<V>): (x: Val<V>)
    ensures IsVal(s, x)
  {
    match s
    case Regular(d) => Plain(d)
    case Optional => Maybe(None)
    case Struct(fs) => Record(seq(|fs|, i requires 0 <= i < |fs| => Default(fs[i])))
  }

  /** `From` a refinement. */
  function From<V>(s: Schema<V>, r: Ref<V>): (x: Val<V>)
    requires IsRef(s, r)
    ensures IsVal(s, x)
  {
    match s
    case Regular(d) => Plain(if r.override.Some? then r.override.value else d)
    case Optional => Maybe(r.override)
    case Struct(fs) => Record(seq(|fs|, i requires 0 <= i < |fs| => From(fs[i], r.fields[i])))
  }

  // ----- Field by field -----

  // Every operation acts on each plain field by itself. A path leads to one, through the nested structs around it.

  ghost predicate IsField<V>(s: Schema<V>, path: seq<nat>) {
    match s
    case Regular(_) | Optional => path == []
    case Struct(fs) => path != [] && path[0] < |fs| && IsField(fs[path[0]], path[1..])
  }

  /** What a struct holds in a field; an optional field may be empty. */
  ghost function Held<V>(s: Schema<V>, x: Val<V>, path: seq<nat>): Option<V>
    requires IsVal(s, x) && IsField(s, path)
  {
    match s
    case Regular(_) => Some(x.value)
    case Optional => x.option
    case Struct(fs) => Held(fs[path[0]], x.fields[path[0]], path[1..])
  }

  /** What a refinement says about a field, if anything. */
  ghost function Said<V>(s: Schema<V>, r: Ref<V>, path: seq<nat>): Option<V>
    requires IsRef(s, r) && IsField(s, path)
  {
    match s
    case Regular(_) | Optional => r.override
    case Struct(fs) => Said(fs[path[0]], r.fields[path[0]], path[1..])
  }

  /** What a field holds by default. */
  ghost function Initial<V>(s: Schema<V>, path: seq<nat>): Option<V>
    requires IsField(s, path)
  {
    match s
    case Regular(d) => Some(d)
    case Optional => None
    case Struct(fs) => Initial(fs[path[0]], path[1..])
  }

  ghost function First<V>(a: Option<V>, b: Option<V>): Option<V> {
    if a.Some? then a else b
  }

  ghost function Unless<V>(same: bool, a: Option<V>): Option<V> {
    if same then None else a
  }

  /** What the operations do to a struct: a refinement wins over what a field holds; a default struct and one converted
      from a refinement hold the defaults where nothing is said; and the difference from a refinement says what
      each field holds that the refinement does not say. */
  lemma {:induction false} StructsFieldByField<V>(s: Schema<V>, x: Val<V>, r: Ref<V>, path: seq<nat>)
    requires IsVal(s, x) && IsRef(s, r) && IsField(s, path)
    ensures Held(s, Refine(s, x, r), path) == First(Said(s, r, path), Held(s, x, path))
    ensures Held(s, Default(s), path) == Initial(s, path)
    ensures Held(s, From(s, r), path) == First(Said(s, r, path), Initial(s, path))
    ensures Said(s, Subtract(s, x, r), path) == Unless(Held(s, x, path) == Said(s, r, path), Held(s, x, path))
    decreases |path|
  {
    if s.Struct? {
      StructsFieldByField(s.fields[path[0]], x.fields[path[0]], r.fields[path[0]], path[1..]);
    }
  }

  /** What they do to refinements: the one merged in wins, the default one says nothing, and the difference says what
      the first says that the second does not. */
  lemma {:induction false} RefinementsFieldByField<V>(s: Schema<V>, a: Ref<V>, b: Ref<V>, path: seq<nat>)
    requires IsRef(s, a) && IsRef(s, b) && IsField(s, path)
    ensures Said(s, Merge(s, a, b), path) == First(Said(s, b, path), Said(s, a, path))
    ensures Said(s, Empty(s), path) == None
    ensures Said(s, Minus(s, a, b), path) == Unless(Said(s, a, path) == Said(s, b, path), Said(s, a, path))
    decreases |path|
  {
    if s.Struct? {
      RefinementsFieldByField(s.fields[path[0]], a.fields[path[0]], b.fields[path[0]], path[1..]);
    }
  }

  ghost predicate SayTheSame<V>(s: Schema<V>, a: Ref<V>, b: Ref<V>)
    requires IsRef(s, a) && IsRef(s, b)
  {
    forall path :: IsField(s, path) ==> Said(s, a, path) == Said(s, b, path)
  }

  ghost predicate HoldTheSame<V>(s: Schema<V>, x: Val<V>, y: Val<V>)
    requires IsVal(s, x) && IsVal(s, y)
  {
    forall path :: IsField(s, path) ==> Held(s, x, path) == Held(s, y, path)
  }

  /** The fields are all there is to a refinement. */
  lemma {:induction false} SayingTheSameIsEqual<V>(s: Schema<V>, a: Ref<V>, b: Ref<V>)
    requires IsRef(s, a) && IsRef(s, b)
    ensures SayTheSame(s, a, b) <==> a == b
  {
    if SayTheSame(s, a, b) {
      match s
      case Regular(_) | Optional => assert Said(s, a, []) == Said(s, b, []);
      case Struct(fs) =>
        forall i | 0 <= i < |fs| ensures a.fields[i] == b.fields[i] {
          forall path | IsField(fs[i], path) ensures Said(fs[i], a.fields[i], path) == Said(fs[i], b.fields[i], path) {
            assert ([i] + path)[1..] == path;
            assert Said(s, a, [i] + path) == Said(s, b, [i] + path);
          }
          SayingTheSameIsEqual(fs[i], a.fields[i], b.fields[i]);
        }
    }
  }

  /** The fields are all there is to a struct. */
  lemma {:induction false} HoldingTheSameIsEqual<V>(s: Schema<V>, x: Val<V>, y: Val<V>)
    requires IsVal(s, x) && IsVal(s, y)
    ensures HoldTheSame(s, x, y) <==> x == y
  {
    if HoldTheSame(s, x, y) {
      match s
      case Regular(_) | Optional => assert Held(s, x, []) == Held(s, y, []);
      case Struct(fs) =>
        forall i | 0 <= i < |fs| ensures x.fields[i] == y.fields[i] {
          forall path | IsField(fs[i], path) ensures Held(fs[i], x.fields[i], path) == Held(fs[i], y.fields[i], path) {
            assert ([i] + path)[1..] == path;
            assert Held(s, x, [i] + path) == Held(s, y, [i] + path);
          }
          HoldingTheSameIsEqual(fs[i], x.fields[i], y.fields[i]);
        }
    }
  }

  /** The refinement says everything that the struct holds. */
  ghost predicate SaysAll<V>(s: Schema<V>, r: Ref<V>, x: Val<V>)
    requires IsVal(s, x) && IsRef(s, r)
  {
    forall path :: IsField(s, path) ==> Held(s, x, path).Some? ==> Said(s, r, path) == Held(s, x, path)
  }

  lemma LeftOfField<V>(s: Schema<V>, x: Val<V>, r: Ref<V>, path: seq<nat>)
    requires IsVal(s, x) && IsRef(s, r) && IsField(s, path)
    ensures Said(s, Subtract(s, x, r), path) == Said(s, Empty(s), path)
       <==> (Held(s, x, path).Some? ==> Said(s, r, path) == Held(s, x, path))
  {
    StructsFieldByField(s, x, r, path);
    RefinementsFieldByField(s, r, r, path);
  }

  /** Nothing is left of a struct after subtracting a refinement exactly if the refinement says all it holds. */
  lemma NothingLeftExactly<V>(s: Schema<V>, x: Val<V>, r: Ref<V>)
    requires IsVal(s, x) && IsRef(s, r)
    ensures IsEmpty(s, Subtract(s, x, r)) <==> SaysAll(s, r, x)
  {
    var d := Subtract(s, x, r);
    EmptinessAgrees(s, d);
    SayingTheSameIsEqual(s, d, Empty(s));
    if SayTheSame(s, d, Empty(s)) {
      forall path | IsField(s, path) && Held(s, x, path).Some? ensures Said(s, r, path) == Held(s, x, path) {
        LeftOfField(s, x, r, path);
      }
    }
    if SaysAll(s, r, x) {
      forall path | IsField(s, path) ensures Said(s, d, path) == Said(s, Empty(s), path) {
        LeftOfField(s, x, r, path);
      }
    }
  }

  // ----- Refinement -----

  /** Applying two refinements one after the other is applying their merge. */
  lemma {:induction false} RefineTwice<V>(s: Schema<V>, x: Val<V>, a: Ref<V>, b: Ref<V>)
    requires IsVal(s, x) && IsRef(s, a) && IsRef(s, b)
    ensures Refine(s, Refine(s, x, a), b) == Refine(s, x, Merge(s, a, b))
  {
    if s.Struct? {
      forall i | 0 <= i < |s.fields|
        ensures Refine(s, Refine(s, x, a), b).fields[i] == Refine(s, x, Merge(s, a, b)).fields[i]
      {
        RefineTwice(s.fields[i], x.fields[i], a.fields[i], b.fields[i]);
      }
    }
  }

  lemma {:induction false} MergeIsAssociative<V>(s: Schema<V>, a: Ref<V>, b: Ref<V>, c: Ref<V>)
    requires IsRef(s, a) && IsRef(s, b) && IsRef(s, c)
    ensures Merge(s, Merge(s, a, b), c) == Merge(s, a, Merge(s, b, c))
  {
    if s.Struct? {
      forall i | 0 <= i < |s.fields|
        ensures Merge(s, Merge(s, a, b), c).fields[i] == Merge(s, a, Merge(s, b, c)).fields[i]
      {
        MergeIsAssociative(s.fields[i], a.fields[i], b.fields[i], c.fields[i]);
      }
    }
  }

  /** The default refinement changes nothing, from either side. */
  lemma {:induction false} EmptyIsNeutral<V>(s: Schema<V>, x: Val<V>, r: Ref<V>)
    requires IsVal(s, x) && IsRef(s, r)
    ensures Refine(s, x, Empty(s)) == x && Merge(s, r, Empty(s)) == r && Merge(s, Empty(s), r) == r
  {
    if s.Struct? {
      forall i | 0 <= i < |s.fields|
        ensures Refine(s, x, Empty(s)).fields[i] == x.fields[i]
        ensures Merge(s, r, Empty(s)).fields[i] == r.fields[i] && Merge(s, Empty(s), r).fields[i] == r.fields[i]
      {
        EmptyIsNeutral(s.fields[i], x.fields[i], r.fields[i]);
      }
    }
  }

  /** Converting a refinement into a struct refines the all-default struct. */
  lemma {:induction false} FromRefinesDefault<V>(s: Schema<V>, r: Ref<V>)
    requires IsRef(s, r)
    ensures From(s, r) == Refine(s, Default(s), r)
  {
    if s.Struct? {
      forall i | 0 <= i < |s.fields| ensures From(s, r).fields[i] == Refine(s, Default(s), r).fields[i] {
        FromRefinesDefault(s.fields[i], r.fields[i]);
      }
    }
  }

  // ----- Emptiness and order -----

  /** The empty refinement is the default one, `is_some` is the opposite of `is_empty`, and an empty
      refinement is exactly one that changes no refinement. */
  lemma {:induction false} EmptinessAgrees<V>(s: Schema<V>, r: Ref<V>)
    requires IsRef(s, r)
    ensures IsEmpty(s, r) <==> r == Empty(s)
    ensures IsSome(s, r) <==> !IsEmpty(s, r)
    ensures IsEmpty(s, r) <==> Merge(s, Empty(s), r) == Empty(s)
  {
    if s.Struct? {
      forall i | 0 <= i < |s.fields|
        ensures IsEmpty(s.fields[i], r.fields[i]) <==> r.fields[i] == Empty(s).fields[i]
        ensures IsSome(s.fields[i], r.fields[i]) <==> !IsEmpty(s.fields[i], r.fields[i])
      {
        EmptinessAgrees(s.fields[i], r.fields[i]);
      }
      if IsEmpty(s, r) {
        assert r.fields == Empty(s).fields;
      }
    }
    EmptyIsNeutral(s, Default(s), r);
  }

  /** A struct contains a refinement exactly if applying it changes nothing. */
  lemma {:induction false} ContainsMeansFixed<V>(s: Schema<V>, x: Val<V>, r: Ref<V>)
    requires IsVal(s, x) && IsRef(s, r)
    ensures Contains(s, x, r) <==> Refine(s, x, r) == x
  {
    if s.Struct? {
      forall i | 0 <= i < |s.fields|
        ensures Contains(s.fields[i], x.fields[i], r.fields[i]) <==> Refine(s, x, r).fields[i] == x.fields[i]
      {
        ContainsMeansFixed(s.fields[i], x.fields[i], r.fields[i]);
      }
      if Contains(s, x, r) {
        assert Refine(s, x, r).fields == x.fields;
      }
    }
  }

  /** The same for refinements, where the difference also tells. */
  lemma {:induction false} IncludesMeansNothingLeft<V>(s: Schema<V>, a: Ref<V>, b: Ref<V>)
    requires IsRef(s, a) && IsRef(s, b)
    ensures Includes(s, a, b) <==> Merge(s, a, b) == a
    ensures Includes(s, a, b) <==> IsEmpty(s, Minus(s, b, a))
  {
    if s.Struct? {
      forall i | 0 <= i < |s.fields|
        ensures Includes(s.fields[i], a.fields[i], b.fields[i]) <==> Merge(s, a, b).fields[i] == a.fields[i]
        ensures Includes(s.fields[i], a.fields[i], b.fields[i]) <==> IsEmpty(s.fields[i], Minus(s, b, a).fields[i])
      {
        IncludesMeansNothingLeft(s.fields[i], a.fields[i], b.fields[i]);
      }
      if Includes(s, a, b) {
        assert Merge(s, a, b).fields == a.fields;
      }
    }
  }

  lemma {:induction false} MergeIsIdempotent<V>(s: Schema<V>, r: Ref<V>)
    requires IsRef(s, r)
    ensures Merge(s, r, r) == r
  {
    if s.Struct? {
      forall i | 0 <= i < |s.fields| ensures Merge(s, r, r).fields[i] == r.fields[i] {
        MergeIsIdempotent(s.fields[i], r.fields[i]);
      }
    }
  }

  /** Whatever it is applied to, a refinement gets its way; so does the last slot of a cascade. */
  lemma RefinedContainsRefinement<V>(s: Schema<V>, x: Val<V>, r: Ref<V>)
    requires IsVal(s, x) && IsRef(s, r)
    ensures Contains(s, Refine(s, x, r), r)
  {
    RefineTwice(s, x, r, r);
    MergeIsIdempotent(s, r);
    ContainsMeansFixed(s, Refine(s, x, r), r);
  }

  // ----- Subtraction -----

  /** What is subtracted can be merged back: the difference from `b` carries everything `a` says. */
  lemma {:induction false} MinusRestores<V>(s: Schema<V>, a: Ref<V>, b: Ref<V>)
    requires IsRef(s, a) && IsRef(s, b)
    ensures Merge(s, b, Minus(s, a, b)) == Merge(s, b, a)
  {
    if s.Struct? {
      forall i | 0 <= i < |s.fields| ensures Merge(s, b, Minus(s, a, b)).fields[i] == Merge(s, b, a).fields[i] {
        MinusRestores(s.fields[i], a.fields[i], b.fields[i]);
      }
    }
  }

  /** A refinement cannot clear an optional field: here is one that would have to. */
  ghost predicate MustClear<V>(s: Schema<V>, x: Val<V>, r: Ref<V>)
    requires IsVal(s, x) && IsRef(s, r)
  {
    match s
    case Regular(_) => false
    case Optional => x.option.None? && r.override.Some?
    case Struct(fs) => exists i :: 0 <= i < |fs| && MustClear(fs[i], x.fields[i], r.fields[i])
  }

  /** The difference of a struct from a refinement, merged on top of that refinement, gives the struct
      back - exactly unless an optional field is empty in the struct and set in the refinement. */
  lemma {:induction false} SubtractRestoresExactly<V>(s: Schema<V>, x: Val<V>, r: Ref<V>)
    requires IsVal(s, x) && IsRef(s, r)
    ensures From(s, Merge(s, r, Subtract(s, x, r))) == x <==> !MustClear(s, x, r)
  {
    if s.Struct? {
      var y := From(s, Merge(s, r, Subtract(s, x, r)));
      forall i | 0 <= i < |s.fields|
        ensures y.fields[i] == x.fields[i] <==> !MustClear(s.fields[i], x.fields[i], r.fields[i])
      {
        SubtractRestoresExactly(s.fields[i], x.fields[i], r.fields[i]);
      }
      if !MustClear(s, x, r) {
        assert y.fields == x.fields;
      }
    }
  }

  // ----- Assignment field by field -----

  /** The generated `refine` and `refined` assign the fields one after the other. */
  method RefineFields<V>(fs: seq<Schema<V>>, self: seq<Val<V>>, refinement: seq<Ref<V>>) returns (fields: seq<Val<V>>)
    requires IsVal(Struct(fs), Record(self)) && IsRef(Struct(fs), Patches(refinement))
    ensures Record(fields) == Refine(Struct(fs), Record(self), Patches(refinement))
    decreases fs
  {
    fields := self;
    for i := 0 to |fs|
      invariant |fields| == |fs|
      invariant forall k :: 0 <= k < i ==> fields[k] == Refine(fs[k], self[k], refinement[k])
      invariant forall k :: i <= k < |fs| ==> fields[k] == self[k]
    {
      match fs[i]
      case Regular(_) =>
        if refinement[i].override.Some? {
          fields := fields[i := Plain(refinement[i].override.value)];
        }
      case Optional =>
        if refinement[i].override.Some? {
          fields := fields[i := Maybe(refinement[i].override)];
        }
      case Struct(inner) =>
        var nested := RefineFields(inner, self[i].fields, refinement[i].fields);
        fields := fields[i := Record(nested)];
    }
  }

  // ----- Cascades -----

  /** Every slot that is set holds a refinement of this shape, and the base slot is set. */
  ghost predicate SlotsFit<V>(s: Schema<V>, slots: seq<Option<Ref<V>>>) {
    (forall i :: 0 <= i < |slots| ==> slots[i].Some? ==> IsRef(s, slots[i].value)) && (slots != [] ==> slots[0].Some?)
  }

  /** The refinements present in a list of slots, applied to a struct one after the other. */
  ghost function ApplySlots<V>(s: Schema<V>, x: Val<V>, slots: seq<Option<Ref<V>>>): (y: Val<V>)
    requires IsVal(s, x) && SlotsFit(s, slots)
    ensures IsVal(s, y)
  {
    if slots == [] then x
    else
      var before := ApplySlots(s, x, slots[..|slots| - 1]);
      var last := slots[|slots| - 1];
      if last.Some? then Refine(s, before, last.value) else before
  }

  /** `merged`: the base refinement with the slots that are set merged into it, in order. */
  ghost function MergeSlots<V>(s: Schema<V>, slots: seq<Option<Ref<V>>>): (r: Ref<V>)
    requires SlotsFit(s, slots) && slots != []
    ensures IsRef(s, r)
  {
    if |slots| == 1 then slots[0].value
    else
      var before := MergeSlots(s, slots[..|slots| - 1]);
      var last := slots[|slots| - 1];
      if last.Some? then Merge(s, before, last.value) else before
  }

  /** Merging all slots and applying the result once is applying the slots in order: later slots win. */
  lemma {:induction false} MergedSlotsApplyInOrder<V>(s: Schema<V>, x: Val<V>, slots: seq<Option<Ref<V>>>)
    requires IsVal(s, x) && SlotsFit(s, slots) && slots != []
    ensures Refine(s, x, MergeSlots(s, slots)) == ApplySlots(s, x, slots)
    decreases |slots|
  {
    if |slots| == 1 {
      assert ApplySlots(s, x, slots[..0]) == x;
    } else {
      var before, last := slots[..|slots| - 1], slots[|slots| - 1];
      MergedSlotsApplyInOrder(s, x, before);
      if last.Some? {
        RefineTwice(s, x, MergeSlots(s, before), last.value);
      }
    }
  }

  ghost predicate SaysSomething<V>(s: Schema<V>, slot: Option<Ref<V>>, path: seq<nat>)
    requires (slot.Some? ==> IsRef(s, slot.value)) && IsField(s, path)
  {
    slot.Some? && Said(s, slot.value, path).Some?
  }

  /** Slot `i` is the last that says anything about the field. */
  ghost predicate HasLastWord<V>(s: Schema<V>, slots: seq<Option<Ref<V>>>, path: seq<nat>, i: nat)
    requires SlotsFit(s, slots) && IsField(s, path) && i < |slots|
  {
    SaysSomething(s, slots[i], path) && forall j :: i < j < |slots| ==> !SaysSomething(s, slots[j], path)
  }

  /** For every field the last slot that says anything has its way, and nothing is said if none does. */
  lemma {:induction false} LastWordWins<V>(s: Schema<V>, slots: seq<Option<Ref<V>>>, path: seq<nat>)
    requires SlotsFit(s, slots) && slots != [] && IsField(s, path)
    ensures forall i :: 0 <= i < |slots| && HasLastWord(s, slots, path, i) ==>
              Said(s, MergeSlots(s, slots), path) == Said(s, slots[i].value, path)
    ensures Said(s, MergeSlots(s, slots), path).Some? <==> exists i :: 0 <= i < |slots| && HasLastWord(s, slots, path, i)
    decreases |slots|
  {
    hide Said, Merge;
    var last := |slots| - 1;
    if last == 0 {
      assert SaysSomething(s, slots[0], path) ==> HasLastWord(s, slots, path, 0);
    } else {
      var before := slots[..last];
      LastWordWins(s, before, path);
      if SaysSomething(s, slots[last], path) {
        RefinementsFieldByField(s, MergeSlots(s, before), slots[last].value, path);
        assert HasLastWord(s, slots, path, last);
      } else {
        if slots[last].Some? {
          RefinementsFieldByField(s, MergeSlots(s, before), slots[last].value, path);
        }
        assert forall i :: 0 <= i < last ==> (HasLastWord(s, slots, path, i) <==> HasLastWord(s, before, path, i));
      }
    }
  }

  datatype Slot = Slot(cascadeId: nat, index: nat)

  class Cascade<V(0)> {
    const schema: Schema<V>
    const id: nat
    var refinements: seq<Option<Ref<V>>>

    ghost predicate Valid()
      reads this
    {
      refinements != [] && SlotsFit(schema, refinements)
    }

    constructor (schema: Schema<V>, id: nat)
      ensures Valid() && this.schema == schema && this.id == id && refinements == [Some(Empty(schema))]
    {
      this.schema, this.id := schema, id;
      refinements := [Some(Empty(schema))];
    }

    method Reserve() returns (slot: Slot)
      requires Valid()
      modifies this
      ensures Valid() && refinements == old(refinements) + [None]
      ensures slot == Slot(id, |old(refinements)|)
    {
      refinements := refinements + [None];
      slot := Slot(id, |refinements| - 1);
    }

    method SetBase(refinement: Ref<V>)
      requires Valid() && IsRef(schema, refinement)
      modifies this
      ensures Valid() && refinements == old(refinements)[0 := Some(refinement)]
    {
      refinements := refinements[0 := Some(refinement)];
    }

    /** Slots of other cascades, and slots not reserved here, are refused. Reserved slots are never the base. */
    method Set(slot: Slot, refinement: Option<Ref<V>>) returns (ok: bool)
      requires Valid() && (refinement.Some? ==> IsRef(schema, refinement.value)) && slot.index > 0
      modifies this
      ensures Valid() && (ok <==> slot.cascadeId == id && slot.index < |old(refinements)|)
      ensures refinements == if ok then old(refinements)[slot.index := refinement] else old(refinements)
    {
      if slot.cascadeId != id || slot.index >= |refinements| {
        return false;
      }
      refinements := refinements[slot.index := refinement];
      ok := true;
    }

    method Merged() returns (merged: Ref<V>)
      requires Valid()
      ensures IsRef(schema, merged) && merged == MergeSlots(schema, refinements)
    {
      merged := refinements[0].value;
      for i := 1 to |refinements|
        invariant IsRef(schema, merged) && merged == MergeSlots(schema, refinements[..i])
      {
        assert refinements[..i + 1][..i] == refinements[..i];
        if refinements[i].Some? {
          merged := Merge(schema, merged, refinements[i].value);
        }
      }
      assert refinements[..|refinements|] == refinements;
    }

    /** `from_cascade`; `initial` is the default value of the struct, which its author may choose. */
    method Build(initial: Val<V>) returns (x: Val<V>)
      requires Valid() && IsVal(schema, initial)
      ensures x == ApplySlots(schema, initial, refinements)
    {
      var merged := Merged();
      MergedSlotsApplyInOrder(schema, initial, refinements);
      x := Refine(schema, initial, merged);
    }
  }
}
