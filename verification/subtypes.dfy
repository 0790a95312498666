/**
 * The runtime meaning of the code that `entity_inherits!` and `entity_type!`
 * generate: typed wrappers around an entity, upcasts, marker-checked
 * downcasts, the generated constructor and the generated field accessors.
 *
 * A markers of entity types `T0 < T1 < ... < Tm-1 < Entity` is given by the
 * names `markers[0..m]`, most derived first; level `i` is `markers[i]` and level
 * `|markers|` is `Entity` itself. A value of type `Ti` is a `Typed(i, node)`:
 * every generated type is a one-field tuple struct, so a wrapper is the level
 * it sits at plus the entity it ultimately wraps. Type `Ti` is identified by
 * its marker component, whose tag is the type name followed by `Component`.
 */
module Subtypes {
  import opened Wrappers
  import opened Components
  import opened Entity

  datatype Typed = Typed(level: nat, entity: Node)

  const ConversionFailed := "Type conversion failed"
  const UnwrapNone := "called `Option::unwrap()` on a `None` value"

  /** The marker component type generated for an entity type. */
  function MarkerName(typeName: string): (m: TypeTag)
    ensures typeName < m && m[|typeName|..] == "Component"
  {
    typeName + "Component"
  }

  /** Distinct entity types get distinct marker components. */
  lemma MarkerNameInjective(a: string, b: string)
    requires MarkerName(a) == MarkerName(b)
    ensures a == b
  {
    assert |a| == |b|;
    assert a == MarkerName(a)[..|a|] && b == MarkerName(b)[..|b|];
  }

  /** The markers of levels `j` .. `|markers| - 1` are all attached. */
  ghost predicate Carries(markers: seq<string>, c: seq<Component>, j: nat)
  {
    forall i :: j <= i < |markers| ==> CountTag(c, markers[i]) > 0
  }

  /**
   * `From<Ti> for Tk`: the direct impl unwraps one level; an indirect one
   * unwraps one level and converts the rest of the way.
   */
  function Upcast(x: Typed, k: nat): (r: Typed)
    requires x.level <= k
    ensures r == Typed(k, x.entity)
    decreases k - x.level
  {
    if x.level == k then x else Upcast(Typed(x.level + 1, x.entity), k)
  }

  /**
   * `TryFrom<Tk> for Tj` on a value `x` of level k: check the marker of
   * level j; then, for a direct supertype, wrap, and for an indirect one,
   * first convert `x` to level j + 1 and wrap that.
   */
  function TryFrom(markers: seq<string>, x: Typed, j: nat): (r: Result<Typed, EntityTypeError>)
    reads x.entity
    requires j < x.level <= |markers|
    ensures r.Ok? <==> forall i :: j <= i < x.level ==> CountTag(x.entity.components, markers[i]) > 0
    ensures r.Ok? ==> r.value == Typed(j, x.entity)
    ensures r.Err? ==> r.error == EntityTypeError(ConversionFailed)
    decreases x.level - j
  {
    if CountTag(x.entity.components, markers[j]) == 0 then Err(EntityTypeError(ConversionFailed))
    else if x.level == j + 1 then Ok(Typed(j, x.entity))
    else match TryFrom(markers, x, j + 1)
      case Ok(y) => Ok(Typed(j, y.entity))
      case Err(e) => Err(e)
  }

  /** `entity.is::<Tj>()`. */
  function Is(markers: seq<string>, n: Node, j: nat): (b: bool)
    reads n
    requires j < |markers|
    ensures b <==> Carries(markers, n.components, j)
  {
    TryFrom(markers, Typed(|markers|, n), j).Ok?
  }

  /** An entity without components is no generated type: `Entity::new().is::<A>()` is false. */
  lemma NothingIsBare(markers: seq<string>, n: Node, j: nat)
    requires j < |markers| && n.components == []
    ensures !Is(markers, n, j)
  {
    assert CountTag(n.components, markers[j]) == 0;
  }

  /** A successful downcast followed by an upcast gives back the value it started from. */
  lemma DowncastThenUpcast(markers: seq<string>, x: Typed, j: nat)
    requires j < x.level <= |markers| && TryFrom(markers, x, j).Ok?
    ensures Upcast(TryFrom(markers, x, j).value, x.level) == x
  {
  }

  /** An upcast of a well-formed value can always be undone by a downcast. */
  lemma UpcastThenDowncast(markers: seq<string>, x: Typed, k: nat)
    requires x.level < k <= |markers| && Carries(markers, x.entity.components, x.level)
    ensures TryFrom(markers, Upcast(x, k), x.level) == Ok(x)
  {
  }

  /**
   * Two wrappers of one type are equal exactly when they wrap the same entity,
   * as the generated `PartialEq` compares the wrapped values.
   */
  lemma WrapperEquality(x: Typed, y: Typed)
    requires x.level == y.level
    ensures x == y <==> x.entity == y.entity
  {
  }

  /**
   * The component table of a freshly constructed `Tj`: the supertype's
   * constructor runs first, then the marker of level j is set holding the
   * field defaults of level j.
   */
  function Built(markers: seq<string>, defaults: seq<map<string, Value>>, j: nat): (r: seq<Component>)
    requires j <= |markers| == |defaults|
    ensures |r| <= |markers| - j
    ensures j < |markers| ==> |r| > 0 && r[|r| - 1] == Component(markers[j], Fields(defaults[j]))
    decreases |markers| - j
  {
    if j == |markers| then []
    else Stored(Built(markers, defaults, j + 1), markers[j], Fields(defaults[j]))
  }

  /** A freshly constructed `Tj` carries the marker of every level from j up. */
  lemma BuiltCarries(markers: seq<string>, defaults: seq<map<string, Value>>, j: nat)
    requires j <= |markers| == |defaults|
    ensures Carries(markers, Built(markers, defaults, j), j)
    decreases |markers| - j
  {
    forall i | j <= i < |markers|
      ensures CountTag(Built(markers, defaults, j), markers[i]) > 0
    {
      BuiltCount(markers, defaults, j, i);
    }
  }

  /** The marker of level i survives every later `set` of the constructors below it. */
  lemma {:induction false} BuiltCount(markers: seq<string>, defaults: seq<map<string, Value>>, j: nat, i: nat)
    requires j <= i < |markers| == |defaults|
    ensures CountTag(Built(markers, defaults, j), markers[i]) > 0
    decreases i - j
  {
    var below := Built(markers, defaults, j + 1);
    BuiltStep(markers, defaults, j, below);
    StoredCount(below, markers[j], Fields(defaults[j]), markers[i]);
    if i > j && markers[i] != markers[j] {
      BuiltCount(markers, defaults, j + 1, i);
    }
  }

  /** A freshly constructed `Tj` passes `is` for its own type and every generated supertype. */
  lemma ConstructedIs(markers: seq<string>, defaults: seq<map<string, Value>>, n: Node, j: nat)
    requires j < |markers| == |defaults| && n.components == Built(markers, defaults, j)
    ensures forall k :: j <= k < |markers| ==> Is(markers, n, k)
  {
    BuiltCarries(markers, defaults, j);
  }

  /**
   * The generated `new` of `Tj`: construct the supertype, set the marker of
   * level j with its field defaults, convert the resulting `Entity` back to
   * the supertype (the `try_into().unwrap()`, which cannot fail) and wrap it.
   * The user-written statements after `super(...)` are not part of this model.
   */
  method New(markers: seq<string>, defaults: seq<map<string, Value>>, j: nat) returns (x: Typed)
    requires j <= |markers| == |defaults|
    ensures x.level == j && fresh(x.entity)
    ensures x.entity.components == Built(markers, defaults, j)
    decreases |markers| - j
  {
    if j == |markers| {
      var n := new Node();
      return Typed(j, n);
    }
    var super := New(markers, defaults, j + 1);
    var e := SetMarker(super.entity, markers, defaults, j);
    if j + 1 == |markers| {
      x := Typed(j, e);
    } else {
      var converted := ConvertBack(markers, defaults, e, j);
      x := Typed(j, converted.entity);
    }
  }

  /**
   * `try_into().unwrap()` from `Entity` to the supertype of `Tj`, on the
   * entity of a fresh `Tj`: the conversion succeeds, so the `unwrap` cannot panic.
   */
  method ConvertBack(markers: seq<string>, ghost defaults: seq<map<string, Value>>, e: Node, j: nat) returns (y: Typed)
    requires j + 1 < |markers| == |defaults| && e.components == Built(markers, defaults, j)
    ensures y == Typed(j + 1, e)
  {
    BuiltCarries(markers, defaults, j);
    var converted := TryFrom(markers, Typed(|markers|, e), j + 1);
    y := converted.value;
  }

  /** `.set(Marker::default())` on the supertype's entity. */
  method SetMarker(n: Node, markers: seq<string>, defaults: seq<map<string, Value>>, j: nat) returns (e: Node)
    requires j < |markers| == |defaults| && n.components == Built(markers, defaults, j + 1)
    modifies n`components
    ensures e == n && n.components == Built(markers, defaults, j)
  {
    ghost var below := n.components;
    e := n.Set(markers[j], Fields(defaults[j]));
    BuiltStep(markers, defaults, j, below);
  }

  /** One step of construction: `Tj`'s table is its supertype's with the marker of level j set. */
  lemma BuiltStep(markers: seq<string>, defaults: seq<map<string, Value>>, j: nat, below: seq<Component>)
    requires j < |markers| == |defaults| && below == Built(markers, defaults, j + 1)
    ensures Built(markers, defaults, j) == Stored(below, markers[j], Fields(defaults[j]))
  {
  }

  /** The fields held by a marker component. */
  function FieldsOf(v: Value): map<string, Value>
  {
    if v.Fields? then v.fields else map[]
  }

  /**
   * Every declared field of the type whose marker is `m` is present in its
   * marker: the generated component struct has one member per field.
   */
  predicate Declares(c: seq<Component>, m: TypeTag, f: string)
  {
    Lookup(c, m).Some? ==> f in FieldsOf(Lookup(c, m).value)
  }

  /**
   * The generated getter of field `f` of the type whose marker is `m`:
   * `get::<Marker>().unwrap()` (a panic when the marker has been deleted),
   * then the field's value.
   */
  function GetField(c: seq<Component>, m: TypeTag, f: string): (r: Result<Value, string>)
    requires Declares(c, m, f)
    ensures r.Err? <==> CountTag(c, m) == 0
    ensures r.Err? ==> r.error == UnwrapNone
    ensures r.Ok? ==> Lookup(c, m).Some? && r.value == FieldsOf(Lookup(c, m).value)[f]
  {
    match FirstSlot(c, m)
    case None => Err(UnwrapNone)
    case Some(i) => Ok(FieldsOf(c[i].value)[f])
  }

  /** The table after the generated setter of field `f` wrote `v` into the first marker `m`. */
  function WithField(c: seq<Component>, m: TypeTag, f: string, v: Value): (r: seq<Component>)
    ensures |r| == |c|
    ensures forall k :: 0 <= k < |c| ==> r[k].tag == c[k].tag
  {
    match FirstSlot(c, m)
    case None => c
    case Some(i) => c[i := Component(m, Fields(FieldsOf(c[i].value)[f := v]))]
  }

  /**
   * The generated setter: `get::<Marker>().unwrap()` (a panic when the marker
   * has been deleted), then writes the field in place and returns a clone of
   * the handle.
   */
  method SetField(x: Typed, m: TypeTag, f: string, v: Value) returns (outcome: Outcome, self: Typed)
    modifies x.entity`components
    ensures outcome.Panicked? <==> CountTag(old(x.entity.components), m) == 0
    ensures outcome.Panicked? ==> outcome.message == UnwrapNone
    ensures x.entity.components == WithField(old(x.entity.components), m, f, v)
    ensures self == x
  {
    self := x;
    var slot := Lookup(x.entity.components, m);
    if slot.None? {
      return Panicked(UnwrapNone), self;
    }
    var i := FirstSlot(x.entity.components, m).value;
    var fields := FieldsOf(x.entity.components[i].value);
    x.entity.components := x.entity.components[i := Component(m, Fields(fields[f := v]))];
    outcome := Completed;
  }

  /** Where `WithField` writes. */
  lemma WithFieldAt(c: seq<Component>, m: TypeTag, f: string, v: Value)
    ensures |WithField(c, m, f, v)| == |c|
    ensures forall k :: 0 <= k < |c| ==> WithField(c, m, f, v)[k].tag == c[k].tag
    ensures FirstSlot(c, m).Some? ==> var i := FirstSlot(c, m).value;
      WithField(c, m, f, v)[i].value == Fields(FieldsOf(c[i].value)[f := v]) &&
      forall k :: 0 <= k < |c| && k != i ==> WithField(c, m, f, v)[k] == c[k]
  {
  }

  /** The getter returns what the setter wrote, whenever the marker is attached. */
  lemma GetAfterSetField(c: seq<Component>, m: TypeTag, f: string, v: Value)
    requires CountTag(c, m) > 0
    ensures Declares(WithField(c, m, f, v), m, f) && GetField(WithField(c, m, f, v), m, f) == Ok(v)
  {
    var i := FirstSlot(c, m).value;
    WithFieldAt(c, m, f, v);
    FirstSlotIs(WithField(c, m, f, v), m, Some(i));
  }

  /** The setter leaves every other field, and every other component, as it was. */
  lemma SetFieldKeepsOthers(c: seq<Component>, m: TypeTag, f: string, v: Value, f': string, u: TypeTag)
    requires f' != f && u != m && Declares(c, m, f')
    ensures Declares(WithField(c, m, f, v), m, f') && GetField(WithField(c, m, f, v), m, f') == GetField(c, m, f')
    ensures Lookup(WithField(c, m, f, v), u) == Lookup(c, u)
  {
    var w := WithField(c, m, f, v);
    WithFieldAt(c, m, f, v);
    FirstSlotIs(w, m, FirstSlot(c, m));
    match FirstSlot(c, u) {
      case None => FirstSlotIs(w, u, None);
      case Some(k) => FirstSlotIs(w, u, Some(k));
    }
  }

  /** The setter changes no tag, so it keeps every downcast that succeeded. */
  lemma {:induction false} SetFieldKeepsTags(c: seq<Component>, m: TypeTag, f: string, v: Value, t: TypeTag)
    ensures CountTag(WithField(c, m, f, v), t) == CountTag(c, t)
  {
    WithFieldAt(c, m, f, v);
    SameTagsSameCount(c, WithField(c, m, f, v), t);
  }

  lemma {:induction false} SameTagsSameCount(a: seq<Component>, b: seq<Component>, t: TypeTag)
    requires |a| == |b| && forall k :: 0 <= k < |a| ==> a[k].tag == b[k].tag
    ensures CountTag(a, t) == CountTag(b, t)
    decreases |a|
  {
    if |a| > 0 {
      SameTagsSameCount(a[1..], b[1..], t);
    }
  }
}

/**
 * The input shape `entity_inherits!` accepts: at least two `<`-separated
 * paths, then `, use` and the marker path, then optionally `,` and the
 * crate path, and nothing after. A path is a single token here.
 */
module InheritsSyntax {
  import opened Wrappers

  datatype Token = Less | Comma | Use | PathToken(path: string)

  datatype Inherits = Inherits(typeSequence: seq<string>, componentType: string, ageraCrate: Option<string>)

  datatype ParseError = ParseError(position: nat)

  ghost predicate WellFormed(x: Inherits)
  {
    |x.typeSequence| >= 2
  }

  /** The tokens of a declaration: the inverse of parsing. */
  function Render(x: Inherits): seq<Token>
  {
    TypeTokens(x.typeSequence) + [Comma, Use, PathToken(x.componentType)]
    + (if x.ageraCrate.Some? then [Comma, PathToken(x.ageraCrate.value)] else [])
  }

  function TypeTokens(types: seq<string>): seq<Token>
  {
    if |types| == 0 then []
    else if |types| == 1 then [PathToken(types[0])]
    else [PathToken(types[0]), Less] + TypeTokens(types[1..])
  }

  /** `EntityInherits::parse`, a token at a time, followed by the check that no input remains. */
  method Parse(tokens: seq<Token>) returns (r: Result<Inherits, ParseError>)
    ensures r.Ok? ==> WellFormed(r.value) && Render(r.value) == tokens
  {
    var pos := 0;
    var typeSequence: seq<string> := [];
    if !(pos < |tokens| && tokens[pos].PathToken?) { return Err(ParseError(pos)); }
    typeSequence := typeSequence + [tokens[pos].path];
    pos := pos + 1;
    if !(pos < |tokens| && tokens[pos] == Less) { return Err(ParseError(pos)); }
    pos := pos + 1;
    if !(pos < |tokens| && tokens[pos].PathToken?) { return Err(ParseError(pos)); }
    typeSequence := typeSequence + [tokens[pos].path];
    pos := pos + 1;
    assert TypeTokens(typeSequence) == [PathToken(typeSequence[0]), Less] + [PathToken(typeSequence[1])];
    while pos < |tokens| && tokens[pos] == Less
      invariant 3 <= pos <= |tokens| && |typeSequence| >= 2
      invariant tokens[..pos] == TypeTokens(typeSequence)
      decreases |tokens| - pos
    {
      pos := pos + 1;
      if !(pos < |tokens| && tokens[pos].PathToken?) { return Err(ParseError(pos)); }
      TypeTokensSnoc(typeSequence, tokens[pos].path);
      assert tokens[..pos + 1] == tokens[..pos - 1] + [Less, tokens[pos]];
      typeSequence := typeSequence + [tokens[pos].path];
      pos := pos + 1;
    }
    if !(pos + 2 < |tokens| && tokens[pos] == Comma && tokens[pos + 1] == Use && tokens[pos + 2].PathToken?) {
      return Err(ParseError(pos));
    }
    var componentType := tokens[pos + 2].path;
    pos := pos + 3;
    var ageraCrate: Option<string> := None;
    if pos < |tokens| && tokens[pos] == Comma {
      if !(pos + 1 < |tokens| && tokens[pos + 1].PathToken?) { return Err(ParseError(pos + 1)); }
      ageraCrate := Some(tokens[pos + 1].path);
      pos := pos + 2;
    }
    if pos != |tokens| {
      return Err(ParseError(pos));
    }
    assert tokens == tokens[..pos];
    r := Ok(Inherits(typeSequence, componentType, ageraCrate));
  }

  /** Appending a path to the sequence appends `<` and that path to its tokens. */
  lemma {:induction false} TypeTokensSnoc(types: seq<string>, p: string)
    requires |types| >= 1
    ensures TypeTokens(types + [p]) == TypeTokens(types) + [Less, PathToken(p)]
    decreases |types|
  {
    if |types| == 1 {
      assert types + [p] == [types[0], p];
      assert ([types[0], p])[1..] == [p];
    } else {
      TypeTokensSnoc(types[1..], p);
      assert (types + [p])[1..] == types[1..] + [p];
    }
  }
}
