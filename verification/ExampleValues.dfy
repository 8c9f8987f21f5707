/** What the examples of the OpenAPI tool (tools/openapigen/emit_examples.go) look like: a value fits its type. The walk
    returns a value exactly if it fits. */
module ExampleValues {
  import opened Json
  import opened Options
  import opened Examples

  // ----- What a field's tags give -----

  /** The value a text stands for in a field of the kind: what the parser makes of it, or the kind's fallback. */
  predicate StandsFor(p: Parsers, text: string, t: TypeRef, v: Json) {
    match t
    case Int => p.parseInt(text) == Some(v) || (p.parseInt(text) == None && v == Number("0"))
    case Float => p.parseFloat(text) == Some(v) || (p.parseFloat(text) == None && v == Number("0"))
    case Boolean => v == Bool(text == "true")
    case String(_) => v == Str(text)
    case _ => p.parseJson(text) == Some(v) || (p.parseJson(text) == None && v == Str(text))
  }

  /** The i-th rule is the first one of enumerated values that has any. */
  ghost predicate OneOfAt(p: Parsers, rules: seq<Rule>, i: nat, word: string) {
    && i < |rules| && rules[i].name == "oneof" && p.firstWord(rules[i].param) == Some(word)
    && forall j :: 0 <= j < i && rules[j].name == "oneof" ==> p.firstWord(rules[j].param) == None
  }

  /** The i-th rule is the first lower bound. */
  ghost predicate FloorAt(rules: seq<Rule>, i: nat) {
    && i < |rules| && IsFloor(rules[i])
    && forall j :: 0 <= j < i ==> !IsFloor(rules[j])
  }

  predicate IsFloor(r: Rule) {
    (r.name == "gte" || r.name == "min") && r.param != ""
  }

  ghost predicate NoOneOf(p: Parsers, rules: seq<Rule>) {
    forall j :: 0 <= j < |rules| && rules[j].name == "oneof" ==> p.firstWord(rules[j].param) == None
  }

  /** An example comes first, then the first enumerated value, then, for a number, the lower bound. */
  ghost predicate TagsGive(p: Parsers, f: Field, v: Json) {
    var base := if f.typ.Ref? && f.typ.name == "nullable" && f.typ.inner.Some? then f.typ.inner.value else f.typ;
    if f.example != "" then StandsFor(p, f.example, base, v)
    else if NoOneOf(p, f.validate) then
      (base.Int? || base.Float?) && exists i: nat :: FloorAt(f.validate, i) && StandsFor(p, f.validate[i].param, base, v)
    else exists i: nat, word :: OneOfAt(p, f.validate, i, word) && v == Str(word)
  }

  lemma CoercedStands(p: Parsers, text: string, t: TypeRef, v: Json)
    ensures CoerceExample(p, text, t) == v <==> StandsFor(p, text, t, v)
  {
  }

  lemma {:induction false} FirstOneOfAt(p: Parsers, rules: seq<Rule>) returns (i: nat)
    ensures FirstOneOf(p, rules) == None <==> NoOneOf(p, rules)
    ensures FirstOneOf(p, rules).Some? ==> OneOfAt(p, rules, i, FirstOneOf(p, rules).value)
    decreases |rules|
  {
    i := 0;
    if rules != [] && !(rules[0].name == "oneof" && p.firstWord(rules[0].param).Some?) {
      i := FirstOneOfAt(p, rules[1..]);
      i := i + 1;
      assert forall j :: 0 < j < |rules| ==> rules[j] == rules[1..][j - 1];
    }
  }

  lemma OneOfUnique(p: Parsers, rules: seq<Rule>, i: nat, word: string, i': nat, word': string)
    requires OneOfAt(p, rules, i, word) && OneOfAt(p, rules, i', word')
    ensures word == word'
  {
  }

  lemma {:induction false} NumericFloorAt(p: Parsers, t: TypeRef, rules: seq<Rule>) returns (i: nat)
    ensures NumericFloor(p, t, rules) == None ==> forall j :: 0 <= j < |rules| ==> !IsFloor(rules[j])
    ensures NumericFloor(p, t, rules).Some? ==>
              FloorAt(rules, i) && NumericFloor(p, t, rules) == Some(CoerceExample(p, rules[i].param, t))
    decreases |rules|
  {
    hide CoerceExample;
    i := 0;
    if rules != [] && !IsFloor(rules[0]) {
      i := NumericFloorAt(p, t, rules[1..]);
      i := i + 1;
      assert forall j :: 0 < j < |rules| ==> rules[j] == rules[1..][j - 1];
    }
  }

  lemma FloorUnique(rules: seq<Rule>, i: nat, i': nat)
    requires FloorAt(rules, i) && FloorAt(rules, i')
    ensures i == i'
  {
  }

  lemma TagsExactly(p: Parsers, f: Field, v: Json)
    ensures FromTags(p, f) == Some(v) <==> TagsGive(p, f, v)
  {
    hide FirstOneOf, NumericFloor, CoerceExample, StandsFor, NoOneOf, OneOfAt, FloorAt;
    var base := BaseKind(f.typ);
    CoercedStands(p, f.example, base, v);
    var i := FirstOneOfAt(p, f.validate);
    var k := NumericFloorAt(p, base, f.validate);
    if FirstOneOf(p, f.validate).Some? {
      forall j: nat, word | OneOfAt(p, f.validate, j, word) ensures word == FirstOneOf(p, f.validate).value {
        OneOfUnique(p, f.validate, j, word, i, FirstOneOf(p, f.validate).value);
      }
    }
    forall j: nat | FloorAt(f.validate, j)
      ensures j < |f.validate| && j == k && NumericFloor(p, base, f.validate).Some?
    {
      FloorIsSome(p, base, f.validate, j);
      FloorUnique(f.validate, j, k);
    }
    if NumericFloor(p, base, f.validate).Some? {
      FloorInRange(f.validate, k);
      CoercedStands(p, f.validate[k].param, base, v);
    }
  }

  lemma FloorInRange(rules: seq<Rule>, i: nat)
    requires FloorAt(rules, i)
    ensures i < |rules|
  {
  }

  lemma FloorIsSome(p: Parsers, t: TypeRef, rules: seq<Rule>, j: nat)
    requires FloorAt(rules, j)
    ensures j < |rules| && NumericFloor(p, t, rules).Some?
  {
    var i := NumericFloorAt(p, t, rules);
  }

  // ----- What a type gives -----

  predicate IsAlias(g: Gen, t: TypeRef) {
    t.Ref? && t.name != "nullable" && t.name in g.aliases
  }

  /** n alias steps lead from the type to one that is no alias. */
  predicate LeadsIn(g: Gen, t: TypeRef, n: nat, target: TypeRef)
    decreases n
  {
    if n == 0 then t == target && !IsAlias(g, t) else IsAlias(g, t) && LeadsIn(g, g.aliases[t.name], n - 1, target)
  }

  /** The field is the last one of its JSON name. */
  predicate LastOfName(fields: seq<Field>, k: nat) {
    k < |fields| && forall j :: k < j < |fields| ==> fields[j].jsonName != fields[k].jsonName
  }

  /** The value is an example of the type, below the visited schemas. */
  ghost predicate Fits(g: Gen, t: TypeRef, visited: set<string>, v: Json)
    decreases v, 1
  {
    exists n: nat, target :: LeadsIn(g, t, n, target) && FitsPlain(g, target, visited, v)
  }

  ghost predicate FitsPlain(g: Gen, t: TypeRef, visited: set<string>, v: Json)
    decreases v, 0
  {
    match t
    case String(format) => v == Str(if format == "datetime" then "2025-01-01T00:00:00Z" else "")
    case Int => v == Number("0")
    case Float => v == Number("0")
    case Boolean => v == Bool(false)
    case Array(element) =>
      && v.Arr?
      && if element.Ref? && element.name != "nullable" && element.name in visited then v.elems == []
         else |v.elems| == 1 && Fits(g, element, visited, v.elems[0])
    case Map => v == Obj(map[])
    case Ref(name, _) =>
      if name == "nullable" then v == Null
      else if name !in g.byName || name in visited then v == Obj(map[])
      else
        && v.Obj? && v.fields.Keys == (set f | f in g.byName[name].fields :: f.jsonName)
        && forall k: nat :: LastOfName(g.byName[name].fields, k) ==>
             var f := g.byName[name].fields[k];
             f.jsonName in v.fields && FieldGives(g, f, visited + {name}, v.fields[f.jsonName])
    case Opaque => v == Null
  }

  /** The value is what the field's tags give, or fits its type where they give none. */
  ghost predicate FieldGives(g: Gen, f: Field, visited: set<string>, v: Json)
    decreases v, 2
  {
    TagsGive(g.parsers, f, v) || ((forall x :: !TagsGive(g.parsers, f, x)) && Fits(g, f.typ, visited, v))
  }

  /** An object with one entry for each JSON name, given by the last field of the name. */
  ghost predicate FitsFields(g: Gen, fields: seq<Field>, visited: set<string>, v: Json) {
    && v.Obj? && v.fields.Keys == (set f | f in fields :: f.jsonName)
    && forall k: nat :: LastOfName(fields, k) ==>
         fields[k].jsonName in v.fields && FieldGives(g, fields[k], visited, v.fields[fields[k].jsonName])
  }

  lemma FitsObject(g: Gen, t: TypeRef, visited: set<string>, v: Json)
    requires t.Ref? && t.name != "nullable" && t.name in g.byName && t.name !in visited
    ensures FitsPlain(g, t, visited, v) <==> FitsFields(g, g.byName[t.name].fields, visited + {t.name}, v)
  {
    hide FieldGives, LastOfName;
  }

  // ----- What the walk returns fits -----

  lemma LeadsFits(g: Gen, t: TypeRef, visited: set<string>, v: Json)
    requires !IsAlias(g, t) && FitsPlain(g, t, visited, v)
    ensures Fits(g, t, visited, v)
  {
    hide FitsPlain;
    assert LeadsIn(g, t, 0, t);
  }

  lemma AliasFits(g: Gen, t: TypeRef, visited: set<string>, v: Json)
    requires IsAlias(g, t) && Fits(g, g.aliases[t.name], visited, v)
    ensures Fits(g, t, visited, v)
  {
    hide FitsPlain;
    var n: nat, target :| LeadsIn(g, g.aliases[t.name], n, target) && FitsPlain(g, target, visited, v);
    assert LeadsIn(g, t, n + 1, target);
  }

  /** Whatever the walk returns for a type fits the type. */
  lemma {:induction false} ReturnedFits(g: Gen, t: TypeRef, visited: set<string>, depth: nat, v: Json)
    requires ForType(g, t, visited, depth) == Some(v)
    ensures Fits(g, t, visited, v)
    decreases depth, 2, 0
  {
    hide Fits, ForSchema;
    if IsAlias(g, t) {
      ReturnedFits(g, g.aliases[t.name], visited, depth - 1, v);
      AliasFits(g, t, visited, v);
    } else {
      match t {
        case Array(element) =>
          if !IsVisitedRef(element, visited) {
            ReturnedFits(g, element, visited, depth - 1, v.elems[0]);
          }
        case Ref(name, _) =>
          if name != "nullable" && name in g.byName && name !in visited {
            SchemaFits(g, g.byName[name], visited + {name}, depth - 1, v);
            FitsObject(g, t, visited, v);
          }
        case _ =>
      }
      LeadsFits(g, t, visited, v);
    }
  }

  lemma {:induction false} SchemaFits(g: Gen, s: Schema, visited: set<string>, depth: nat, v: Json)
    requires ForSchema(g, s, visited, depth) == Some(v)
    ensures FitsFields(g, s.fields, visited, v)
    decreases depth, 1, 0
  {
    hide Fits, ForFields, FieldGives;
    OneEntryPerField(g, s.fields, visited, depth, 0);
    forall k: nat | LastOfName(s.fields, k)
      ensures s.fields[k].jsonName in v.fields && FieldGives(g, s.fields[k], visited, v.fields[s.fields[k].jsonName])
    {
      OneEntryPerField(g, s.fields, visited, depth, k);
      FieldFits(g, s.fields[k], visited, depth - 1, v.fields[s.fields[k].jsonName]);
    }
  }

  lemma {:induction false} FieldFits(g: Gen, f: Field, visited: set<string>, depth: nat, v: Json)
    requires ForField(g, f, visited, depth) == Some(v)
    ensures FieldGives(g, f, visited, v)
    decreases depth, 0, 0
  {
    hide Fits, ForType, FromTags, TagsGive;
    forall x ensures FromTags(g.parsers, f) == Some(x) <==> TagsGive(g.parsers, f, x) {
      TagsExactly(g.parsers, f, x);
    }
    if FromTags(g.parsers, f) == None {
      ReturnedFits(g, f.typ, visited, depth - 1, v);
    }
  }

  // ----- Only one value fits -----

  lemma {:induction false} LeadsUnique(g: Gen, t: TypeRef, n: nat, target: TypeRef, n': nat, target': TypeRef)
    requires LeadsIn(g, t, n, target) && LeadsIn(g, t, n', target')
    ensures target == target'
    decreases n
  {
    if n > 0 && n' > 0 {
      LeadsUnique(g, g.aliases[t.name], n - 1, target, n' - 1, target');
    }
  }

  lemma {:induction false} LastExists(fields: seq<Field>, name: string) returns (k: nat)
    requires exists f :: f in fields && f.jsonName == name
    ensures LastOfName(fields, k) && fields[k].jsonName == name
    decreases |fields|
  {
    var n := |fields| - 1;
    if fields[n].jsonName == name {
      k := n;
    } else {
      assert fields == fields[..n] + [fields[n]];
      k := LastExists(fields[..n], name);
    }
  }

  /** A type has one example at most. */
  lemma {:induction false} FitsUnique(g: Gen, t: TypeRef, visited: set<string>, v: Json, v': Json)
    requires Fits(g, t, visited, v) && Fits(g, t, visited, v')
    ensures v == v'
    decreases v, 2
  {
    hide FitsPlain;
    var n: nat, target :| LeadsIn(g, t, n, target) && FitsPlain(g, target, visited, v);
    var n': nat, target' :| LeadsIn(g, t, n', target') && FitsPlain(g, target', visited, v');
    LeadsUnique(g, t, n, target, n', target');
    PlainUnique(g, target, visited, v, v');
  }

  lemma {:induction false} PlainUnique(g: Gen, t: TypeRef, visited: set<string>, v: Json, v': Json)
    requires FitsPlain(g, t, visited, v) && FitsPlain(g, t, visited, v')
    ensures v == v'
    decreases v, 1
  {
    hide Fits, FieldGives, FitsPlain;
    match t
    case Array(_) => ArrayUnique(g, t, visited, v, v');
    case Ref(name, _) =>
      if name != "nullable" && name in g.byName && name !in visited {
        FitsObject(g, t, visited, v);
        FitsObject(g, t, visited, v');
        ObjectUnique(g, name, visited + {name}, v, v');
      } else {
        LeafUnique(g, t, visited, v, v');
      }
    case _ => LeafUnique(g, t, visited, v, v');
  }

  lemma LeafUnique(g: Gen, t: TypeRef, visited: set<string>, v: Json, v': Json)
    requires FitsPlain(g, t, visited, v) && FitsPlain(g, t, visited, v') && !t.Array?
    requires t.Ref? ==> t.name == "nullable" || t.name !in g.byName || t.name in visited
    ensures v == v'
  {
    hide FieldGives, LastOfName;
  }

  lemma {:induction false} ArrayUnique(g: Gen, t: TypeRef, visited: set<string>, v: Json, v': Json)
    requires FitsPlain(g, t, visited, v) && FitsPlain(g, t, visited, v') && t.Array?
    ensures v == v'
    decreases v, 0
  {
    hide Fits, FieldGives, LastOfName;
    if v.elems != [] {
      FitsUnique(g, t.element, visited, v.elems[0], v'.elems[0]);
    }
    assert v.elems == v'.elems;
  }

  lemma {:induction false} ObjectUnique(g: Gen, name: string, visited: set<string>, v: Json, v': Json)
    requires name in g.byName
    requires FitsFields(g, g.byName[name].fields, visited, v) && FitsFields(g, g.byName[name].fields, visited, v')
    ensures v == v'
    decreases v, 0
  {
    hide FieldGives, LastOfName;
    var fields := g.byName[name].fields;
    forall key | key in v.fields ensures v.fields[key] == v'.fields[key] {
      var k := LastExists(fields, key);
      ValueUnique(g, fields[k], visited, v.fields[key], v'.fields[key]);
    }
    assert v.fields == v'.fields;
  }

  lemma {:induction false} ValueUnique(g: Gen, f: Field, visited: set<string>, v: Json, v': Json)
    requires FieldGives(g, f, visited, v) && FieldGives(g, f, visited, v')
    ensures v == v'
    decreases v, 3
  {
    hide Fits, TagsGive;
    if TagsGive(g.parsers, f, v) {
      TagsExactly(g.parsers, f, v);
      TagsExactly(g.parsers, f, v');
    } else {
      FitsUnique(g, f.typ, visited, v, v');
    }
  }

  /** Where the walk returns, it returns the one value that fits. */
  lemma ValueExactly(g: Gen, t: TypeRef, visited: set<string>, depth: nat, v: Json)
    requires ForType(g, t, visited, depth).Some?
    ensures ForType(g, t, visited, depth) == Some(v) <==> Fits(g, t, visited, v)
  {
    hide Fits, ForType;
    var x := ForType(g, t, visited, depth).value;
    ReturnedFits(g, t, visited, depth, x);
    if Fits(g, t, visited, v) {
      FitsUnique(g, t, visited, x, v);
    }
  }

  /** The example emitted under a name fits the fields of the last schema of that name. */
  lemma {:induction false} EmittedFits(g: Gen, schemas: seq<Schema>, depth: nat, k: nat)
    requires Emit(g, schemas, depth).Some?
    requires k < |schemas| && forall j :: k < j < |schemas| ==> schemas[j].name != schemas[k].name
    ensures var out := Emit(g, schemas, depth).value;
            schemas[k].name in out && FitsFields(g, schemas[k].fields, {}, out[schemas[k].name])
    decreases |schemas|
  {
    hide ForSchema, FitsFields;
    var n := |schemas| - 1;
    if k == n {
      SchemaFits(g, schemas[n], {}, depth, Emit(g, schemas, depth).value[schemas[n].name]);
    } else {
      EmittedFits(g, schemas[..n], depth, k);
    }
  }

  /** A schema is found under its name if no later one has it, an alias likewise. */
  lemma {:induction false} LastNamed(schemas: seq<Schema>, aliases: seq<Alias>, k: nat)
    ensures k < |schemas| && (forall j :: k < j < |schemas| ==> schemas[j].name != schemas[k].name) ==>
              schemas[k].name in ByName(schemas) && ByName(schemas)[schemas[k].name] == schemas[k]
    ensures k < |aliases| && (forall j :: k < j < |aliases| ==> aliases[j].name != aliases[k].name) ==>
              aliases[k].name in AliasByName(aliases) && AliasByName(aliases)[aliases[k].name] == aliases[k].underlying
    decreases |schemas| + |aliases|
  {
    if k < |schemas| - 1 && k < |aliases| - 1 {
      LastNamed(schemas[..|schemas| - 1], aliases[..|aliases| - 1], k);
    } else if k < |schemas| - 1 {
      LastNamed(schemas[..|schemas| - 1], aliases, k);
    } else if k < |aliases| - 1 {
      LastNamed(schemas, aliases[..|aliases| - 1], k);
    }
  }
}
