/** The example generator of the OpenAPI tool (tools/openapigen/emit_examples.go): a walk over schemas that may refer to
    each other in circles. The depth argument is the number of nested calls a run may use; a run that needs more has no
    value. Parsing of numbers and JSON texts, and splitting into words, are parameters. */
module Examples {
  import opened Json
  import opened Options

  datatype TypeRef =
    | String(format: string)
    | Int
    | Float
    | Boolean
    | Array(element: TypeRef)
    | Map
    | Ref(name: string, inner: Option<TypeRef>)
    | Opaque

  datatype Rule = Rule(name: string, param: string)

  datatype Field = Field(jsonName: string, typ: TypeRef, validate: seq<Rule>, example: string)

  datatype Schema = Schema(name: string, fields: seq<Field>)

  datatype Alias = Alias(name: string, underlying: TypeRef)

  datatype Parsers = Parsers(
    parseInt: string -> Option<Json>,
    parseFloat: string -> Option<Json>,
    parseJson: string -> Option<Json>,
    firstWord: string -> Option<string>)

  /** Schemas and the types aliases stand for, by name. */
  datatype Gen = Gen(byName: map<string, Schema>, aliases: map<string, TypeRef>, parsers: Parsers)

  const ZERO := Number("0")

  function BaseKind(t: TypeRef): TypeRef {
    if t.Ref? && t.name == "nullable" && t.inner.Some? then t.inner.value else t
  }

  function OrElse(v: Option<Json>, otherwise: Json): Json {
    match v case None => otherwise case Some(j) => j
  }

  function CoerceExample(p: Parsers, text: string, t: TypeRef): Json {
    match t
    case Int => OrElse(p.parseInt(text), ZERO)
    case Float => OrElse(p.parseFloat(text), ZERO)
    case Boolean => Bool(text == "true")
    case String(_) => Str(text)
    case _ => OrElse(p.parseJson(text), Str(text))
  }

  function FirstOneOf(p: Parsers, rules: seq<Rule>): Option<string> {
    if rules == [] then None
    else if rules[0].name == "oneof" && p.firstWord(rules[0].param).Some? then p.firstWord(rules[0].param)
    else FirstOneOf(p, rules[1..])
  }

  function NumericFloor(p: Parsers, t: TypeRef, rules: seq<Rule>): Option<Json> {
    if rules == [] then None
    else if (rules[0].name == "gte" || rules[0].name == "min") && rules[0].param != "" then
      Some(CoerceExample(p, rules[0].param, t))
    else NumericFloor(p, t, rules[1..])
  }

  /** What a field's tags say about its example, before its type is looked at. */
  function FromTags(p: Parsers, f: Field): Option<Json> {
    var base := BaseKind(f.typ);
    if f.example != "" then Some(CoerceExample(p, f.example, base))
    else if FirstOneOf(p, f.validate).Some? then Some(Str(FirstOneOf(p, f.validate).value))
    else if base.Int? || base.Float? then NumericFloor(p, base, f.validate)
    else None
  }

  predicate IsVisitedRef(t: TypeRef, visited: set<string>) {
    t.Ref? && t.name != "nullable" && t.name in visited
  }

  // ----- The walk -----

  function ForType(g: Gen, t: TypeRef, visited: set<string>, depth: nat): Option<Json>
    decreases depth
  {
    if depth == 0 then None
    else
      match t
      case String(format) => Some(Str(if format == "datetime" then "2025-01-01T00:00:00Z" else ""))
      case Int => Some(ZERO)
      case Float => Some(ZERO)
      case Boolean => Some(Bool(false))
      case Array(element) =>
        if IsVisitedRef(element, visited) then Some(Arr([]))
        else (match ForType(g, element, visited, depth - 1) case None => None case Some(v) => Some(Arr([v])))
      case Map => Some(Obj(map[]))
      case Ref(name, _) =>
        if name == "nullable" then Some(Null)
        else if name in g.aliases then ForType(g, g.aliases[name], visited, depth - 1)
        else if name !in g.byName || name in visited then Some(Obj(map[]))
        else ForSchema(g, g.byName[name], visited + {name}, depth - 1)
      case Opaque => Some(Null)
  }

  function ForField(g: Gen, f: Field, visited: set<string>, depth: nat): Option<Json>
    decreases depth
  {
    if depth == 0 then None
    else if FromTags(g.parsers, f).Some? then FromTags(g.parsers, f)
    else ForType(g, f.typ, visited, depth - 1)
  }

  function ForSchema(g: Gen, s: Schema, visited: set<string>, depth: nat): Option<Json>
    decreases depth, 1, 0
  {
    if depth == 0 then None
    else match ForFields(g, s.fields, visited, depth) case None => None case Some(obj) => Some(Obj(obj))
  }

  function ForFields(g: Gen, fields: seq<Field>, visited: set<string>, depth: nat): Option<map<string, Json>>
    requires depth > 0
    decreases depth, 0, |fields|
  {
    if fields == [] then Some(map[])
    else
      var n := |fields| - 1;
      match ForFields(g, fields[..n], visited, depth)
      case None => None
      case Some(obj) =>
        match ForField(g, fields[n], visited, depth - 1)
        case None => None
        case Some(v) => Some(obj[fields[n].jsonName := v])
  }

  function ByName(schemas: seq<Schema>): map<string, Schema> {
    if schemas == [] then map[]
    else ByName(schemas[..|schemas| - 1])[schemas[|schemas| - 1].name := schemas[|schemas| - 1]]
  }

  function AliasByName(aliases: seq<Alias>): map<string, TypeRef> {
    if aliases == [] then map[]
    else AliasByName(aliases[..|aliases| - 1])[aliases[|aliases| - 1].name := aliases[|aliases| - 1].underlying]
  }

  function Generator(schemas: seq<Schema>, aliases: seq<Alias>, p: Parsers): Gen {
    Gen(ByName(schemas), AliasByName(aliases), p)
  }

  /** The whole run: every schema's example, by name. */
  function Emit(g: Gen, schemas: seq<Schema>, depth: nat): Option<map<string, Json>> {
    if schemas == [] then Some(map[])
    else
      var s := schemas[|schemas| - 1];
      match Emit(g, schemas[..|schemas| - 1], depth)
      case None => None
      case Some(out) =>
        match ForSchema(g, s, {}, depth)
        case None => None
        case Some(v) => Some(out[s.name := v])
  }

  // ----- Every field has one entry -----

  function JsonNames(fields: seq<Field>): set<string> {
    set f | f in fields :: f.jsonName
  }

  /** The object has an entry for each JSON name and no other; a name used twice keeps its last field's value. */
  lemma {:induction false} OneEntryPerField(g: Gen, fields: seq<Field>, visited: set<string>, depth: nat, k: nat)
    requires depth > 0 && ForFields(g, fields, visited, depth).Some?
    ensures var obj := ForFields(g, fields, visited, depth).value;
            && obj.Keys == JsonNames(fields)
            && (k < |fields| && (forall j :: k < j < |fields| ==> fields[j].jsonName != fields[k].jsonName) ==>
                  fields[k].jsonName in obj && Some(obj[fields[k].jsonName]) == ForField(g, fields[k], visited, depth - 1))
    decreases |fields|
  {
    hide ForField;
    if fields != [] {
      var n := |fields| - 1;
      OneEntryPerField(g, fields[..n], visited, depth, k);
      assert fields == fields[..n] + [fields[n]];
      assert JsonNames(fields) == JsonNames(fields[..n]) + {fields[n].jsonName};
    }
  }

  // ----- Aliases -----

  /** The alias a type leads to, through any arrays. */
  function Aim(g: Gen, t: TypeRef): (r: Option<string>)
    ensures r.Some? ==> r.value in g.aliases
  {
    match t
    case Array(element) => Aim(g, element)
    case Ref(name, _) => if name != "nullable" && name in g.aliases then Some(name) else None
    case _ => None
  }

  function Next(g: Gen, a: Option<string>): (r: Option<string>)
    ensures r.Some? ==> r.value in g.aliases
  {
    if a.Some? && a.value in g.aliases then Aim(g, g.aliases[a.value]) else None
  }

  /** Where an alias leads after k steps from alias to alias. */
  function Chain(g: Gen, a: Option<string>, k: nat): Option<string>
    decreases k
  {
    if k == 0 then a else Chain(g, Next(g, a), k - 1)
  }

  /** The type leads into a circle of aliases: it has more steps from alias to alias ahead than there are aliases. */
  predicate Circular(g: Gen, t: TypeRef) {
    Aim(g, t).Some? && Chain(g, Aim(g, t), |g.aliases|).Some?
  }

  /** From every alias, following the types they stand for leaves the aliases within as many steps as there are aliases. */
  predicate AliasesAcyclic(g: Gen) {
    forall name :: name in g.aliases && name != "nullable" ==> Chain(g, Some(name), |g.aliases|) == None
  }

  /** The alias steps ahead, counted up to n. */
  function Hops(g: Gen, a: Option<string>, n: nat): nat
    decreases n
  {
    if n == 0 || a == None then 0 else 1 + Hops(g, Next(g, a), n - 1)
  }

  lemma {:induction false} HopsStable(g: Gen, a: Option<string>, n: nat)
    requires Chain(g, a, n) == None
    ensures Hops(g, a, n) == Hops(g, a, n + 1)
    decreases n
  {
    if n > 0 && a != None {
      HopsStable(g, Next(g, a), n - 1);
    }
  }

  /** One alias step brings the end one step closer. */
  lemma NextIsCloser(g: Gen, name: string)
    requires name in g.aliases && name != "nullable" && Chain(g, Some(name), |g.aliases|) == None
    ensures Next(g, Some(name)) == Aim(g, g.aliases[name])
    ensures Hops(g, Next(g, Some(name)), |g.aliases|) < Hops(g, Some(name), |g.aliases|)
  {
    var n := |g.aliases|;
    assert Chain(g, Some(name), n) == None;
    if n > 0 {
      HopsStable(g, Next(g, Some(name)), n - 1);
    }
  }

  // ----- What a walk can come to -----

  /** The walk looks at the field's type: its tags give no example. */
  predicate Walked(g: Gen, f: Field) {
    FromTags(g.parsers, f).None?
  }

  /** Within n steps through elements, aliases and walked fields the type comes to a circle of aliases. */
  ghost predicate Reaches(g: Gen, t: TypeRef, n: nat)
    decreases n
  {
    || Circular(g, t)
    || (n > 0
        && match t
           case Array(element) => Reaches(g, element, n - 1)
           case Ref(name, _) =>
             if name == "nullable" then false
             else if name in g.aliases then Reaches(g, g.aliases[name], n - 1)
             else name in g.byName && exists f :: f in g.byName[name].fields && Walked(g, f) && Reaches(g, f.typ, n - 1)
           case _ => false)
  }

  /** No circle of aliases can be reached. */
  ghost predicate Clean(g: Gen, t: TypeRef) {
    forall n: nat :: !Reaches(g, t, n)
  }

  ghost predicate CleanFields(g: Gen, fields: seq<Field>) {
    forall f :: f in fields && Walked(g, f) ==> Clean(g, f.typ)
  }

  lemma {:induction false} ReachesMore(g: Gen, t: TypeRef, n: nat)
    requires Reaches(g, t, n)
    ensures Reaches(g, t, n + 1)
    decreases n
  {
    hide Circular, Walked;
    if n > 0 && !Circular(g, t) {
      match t
      case Array(element) => ReachesMore(g, element, n - 1);
      case Ref(name, _) =>
        if name in g.aliases {
          ReachesMore(g, g.aliases[name], n - 1);
        } else {
          var f :| f in g.byName[name].fields && Walked(g, f) && Reaches(g, f.typ, n - 1);
          ReachesMore(g, f.typ, n - 1);
        }
    }
  }

  lemma CleanElement(g: Gen, element: TypeRef)
    requires Clean(g, Array(element))
    ensures Clean(g, element)
  {
    hide Circular, Walked;
    forall n: nat ensures !Reaches(g, element, n) {
      assert !Reaches(g, Array(element), n + 1);
    }
  }

  lemma CleanAlias(g: Gen, t: TypeRef)
    requires t.Ref? && t.name != "nullable" && t.name in g.aliases && Clean(g, t)
    ensures Clean(g, g.aliases[t.name]) && Chain(g, Some(t.name), |g.aliases|) == None
  {
    hide Chain, Walked;
    assert !Reaches(g, t, 0);
    forall n: nat ensures !Reaches(g, g.aliases[t.name], n) {
      assert !Reaches(g, t, n + 1);
    }
  }

  lemma CleanSchema(g: Gen, t: TypeRef)
    requires t.Ref? && t.name != "nullable" && t.name !in g.aliases && t.name in g.byName && Clean(g, t)
    ensures CleanFields(g, g.byName[t.name].fields)
  {
    hide Circular, Walked;
    forall f | f in g.byName[t.name].fields && Walked(g, f) ensures Clean(g, f.typ) {
      forall n: nat ensures !Reaches(g, f.typ, n) {
        assert !Reaches(g, t, n + 1);
      }
    }
  }

  // ----- Where no circle can be reached the run returns -----

  /** More depth changes nothing once there is a result. */
  lemma {:induction false} MoreDepth(g: Gen, t: TypeRef, visited: set<string>, d: nat, d': nat)
    requires d <= d' && ForType(g, t, visited, d).Some?
    ensures ForType(g, t, visited, d') == ForType(g, t, visited, d)
    decreases d
  {
    match t
    case Array(element) =>
      if !IsVisitedRef(element, visited) {
        MoreDepth(g, element, visited, d - 1, d' - 1);
      }
    case Ref(name, _) =>
      if name != "nullable" {
        if name in g.aliases {
          MoreDepth(g, g.aliases[name], visited, d - 1, d' - 1);
        } else if name in g.byName && name !in visited {
          MoreDepthFields(g, g.byName[name].fields, visited + {name}, d - 1, d' - 1);
        }
      }
    case _ =>
  }

  lemma {:induction false} MoreDepthFields(g: Gen, fields: seq<Field>, visited: set<string>, d: nat, d': nat)
    requires 0 < d <= d' && ForFields(g, fields, visited, d).Some?
    ensures ForFields(g, fields, visited, d') == ForFields(g, fields, visited, d)
    decreases d, |fields|
  {
    if fields != [] {
      var n := |fields| - 1;
      MoreDepthFields(g, fields[..n], visited, d, d');
      MoreDepthField(g, fields[n], visited, d - 1, d' - 1);
    }
  }

  lemma {:induction false} MoreDepthField(g: Gen, f: Field, visited: set<string>, d: nat, d': nat)
    requires d <= d' && ForField(g, f, visited, d).Some?
    ensures ForField(g, f, visited, d') == ForField(g, f, visited, d)
    decreases d
  {
    if FromTags(g.parsers, f).None? {
      MoreDepth(g, f.typ, visited, d - 1, d' - 1);
    }
  }

  /**
   Schemas may refer to each other in any circle: the walk returns, because each call visits a further schema, or
   takes one of the finitely many alias steps, or looks into a smaller type.
   */
  lemma {:induction false} TypeReturns(g: Gen, t: TypeRef, visited: set<string>) returns (d: nat)
    requires Clean(g, t)
    ensures ForType(g, t, visited, d).Some?
    decreases |g.byName.Keys - visited|, 0, Hops(g, Aim(g, t), |g.aliases|), t
  {
    hide Clean, CleanFields, Hops, Next, Chain, ForSchema, ForType;
    match t
    case Array(element) =>
      if IsVisitedRef(element, visited) {
        d := LeafReturns(g, t, visited);
      } else {
        CleanElement(g, element);
        d := TypeReturns(g, element, visited);
        d := CallerReturns(g, t, visited, d);
      }
    case Ref(name, _) =>
      if name != "nullable" && name in g.aliases {
        CleanAlias(g, t);
        NextIsCloser(g, name);
        d := TypeReturns(g, g.aliases[name], visited);
        d := CallerReturns(g, t, visited, d);
      } else if name != "nullable" && name in g.byName && name !in visited {
        CleanSchema(g, t);
        OneLessUnvisited(g.byName.Keys, visited, name);
        d := SchemaReturns(g, g.byName[name], visited + {name});
        d := CallerReturns(g, t, visited, d);
      } else {
        d := LeafReturns(g, t, visited);
      }
    case _ =>
      d := LeafReturns(g, t, visited);
  }

  /** The type needs no further call. */
  predicate Leaf(g: Gen, t: TypeRef, visited: set<string>) {
    match t
    case Array(element) => IsVisitedRef(element, visited)
    case Ref(name, _) => name == "nullable" || (name !in g.aliases && (name !in g.byName || name in visited))
    case _ => true
  }

  lemma LeafReturns(g: Gen, t: TypeRef, visited: set<string>) returns (d: nat)
    requires Leaf(g, t, visited)
    ensures ForType(g, t, visited, d).Some?
  {
    d := 1;
  }

  /** A call returns one level above the call it makes. */
  lemma CallerReturns(g: Gen, t: TypeRef, visited: set<string>, d: nat) returns (d': nat)
    requires !Leaf(g, t, visited)
    requires t.Array? ==> ForType(g, t.element, visited, d).Some?
    requires t.Ref? && t.name in g.aliases ==> ForType(g, g.aliases[t.name], visited, d).Some?
    requires t.Ref? && t.name !in g.aliases ==> ForSchema(g, g.byName[t.name], visited + {t.name}, d).Some?
    ensures ForType(g, t, visited, d').Some?
  {
    hide ForSchema;
    d' := d + 1;
  }

  lemma OneLessUnvisited(all: set<string>, visited: set<string>, name: string)
    requires name in all && name !in visited
    ensures |all - (visited + {name})| < |all - visited|
  {
    assert all - (visited + {name}) == (all - visited) - {name};
  }

  lemma {:induction false} SchemaReturns(g: Gen, s: Schema, visited: set<string>) returns (d: nat)
    requires CleanFields(g, s.fields)
    ensures ForSchema(g, s, visited, d).Some?
    decreases |g.byName.Keys - visited|, 2
  {
    d := FieldsReturn(g, s.fields, visited);
  }

  lemma {:induction false} FieldsReturn(g: Gen, fields: seq<Field>, visited: set<string>) returns (d: nat)
    requires CleanFields(g, fields)
    ensures d > 0 && ForFields(g, fields, visited, d).Some?
    decreases |g.byName.Keys - visited|, 1, |fields|
  {
    hide Clean, ForType;
    d := 1;
    if fields != [] {
      var n := |fields| - 1;
      var front := FieldsReturn(g, fields[..n], visited);
      d := front + 2;
      if Walked(g, fields[n]) {
        var last := TypeReturns(g, fields[n].typ, visited);
        d := d + last;
        MoreDepth(g, fields[n].typ, visited, last, d - 2);
      }
      MoreDepthFields(g, fields[..n], visited, front, d);
    }
  }

  // ----- Where a circle can be reached it does not -----

  lemma {:induction false} ChainSplit(g: Gen, a: Option<string>, i: nat, j: nat)
    ensures Chain(g, a, i + j) == Chain(g, Chain(g, a, i), j)
    decreases i
  {
    if i > 0 {
      ChainSplit(g, Next(g, a), i - 1, j);
    }
  }

  lemma {:induction false} ChainEnds(g: Gen, a: Option<string>, k: nat)
    ensures Chain(g, a, k).Some? ==> a.Some? && (k > 0 ==> Chain(g, a, k).value in g.aliases)
    ensures a.None? ==> Chain(g, a, k) == None
    decreases k
  {
    if k > 0 {
      ChainEnds(g, Next(g, a), k - 1);
    }
  }

  lemma {:induction false} DistinctFit(names: seq<string>, all: set<string>)
    requires forall i, j :: 0 <= i < j < |names| ==> names[i] != names[j]
    requires forall i :: 0 <= i < |names| ==> names[i] in all
    ensures |names| <= |all|
  {
    if names != [] {
      var n := |names| - 1;
      DistinctFit(names[..n], all - {names[n]});
    }
  }

  /** Two places of a chain that ends cannot hold the same alias. */
  lemma NoRepeat(g: Gen, a: Option<string>, m: nat, i: nat, j: nat)
    requires i < j < m && Chain(g, a, m) == None && Chain(g, a, m - 1).Some?
    ensures Chain(g, a, i) != Chain(g, a, j)
  {
    if Chain(g, a, i) == Chain(g, a, j) {
      ChainSplit(g, a, j, m - j);
      ChainSplit(g, a, i, m - j);
      var e := i + (m - j);
      ChainSplit(g, a, e, m - 1 - e);
      ChainEnds(g, None, m - 1 - e);
    }
  }

  /** A chain with more steps than there are aliases never ends. */
  lemma {:induction false} LongChainForever(g: Gen, name: string, k: nat)
    requires name in g.aliases && Chain(g, Some(name), |g.aliases|).Some?
    ensures Chain(g, Some(name), k).Some?
    decreases k
  {
    var a := Some(name);
    if k > 0 {
      LongChainForever(g, name, k - 1);
      if Chain(g, a, k) == None {
        forall i | 0 <= i < k ensures Chain(g, a, i).Some? && Chain(g, a, i).value in g.aliases {
          ChainSplit(g, a, i, k - 1 - i);
          ChainEnds(g, Chain(g, a, i), k - 1 - i);
          ChainEnds(g, a, i);
        }
        var names := seq(k, i requires 0 <= i < k => Chain(g, a, i).value);
        forall i, j | 0 <= i < j < k ensures names[i] != names[j] {
          NoRepeat(g, a, k, i, j);
        }
        DistinctFit(names, g.aliases.Keys);
        ChainSplit(g, a, k, |g.aliases| - k);
        ChainEnds(g, None, |g.aliases| - k);
      }
    }
  }

  lemma {:induction false} NeverReturns(g: Gen, t: TypeRef, visited: set<string>, depth: nat)
    requires visited !! g.aliases.Keys && forall k: nat :: Chain(g, Aim(g, t), k).Some?
    ensures ForType(g, t, visited, depth) == None
    decreases depth
  {
    if depth > 0 {
      assert Chain(g, Aim(g, t), 0).Some?;
      match t
      case Array(element) =>
        assert Aim(g, element).Some? && !IsVisitedRef(element, visited);
        NeverReturns(g, element, visited, depth - 1);
      case Ref(name, _) =>
        forall k: nat ensures Chain(g, Aim(g, g.aliases[name]), k).Some? {
          assert Chain(g, Aim(g, t), k + 1).Some?;
        }
        NeverReturns(g, g.aliases[name], visited, depth - 1);
    }
  }

  lemma CircularNeverReturns(g: Gen, t: TypeRef, visited: set<string>, depth: nat)
    requires visited !! g.aliases.Keys && Circular(g, t)
    ensures ForType(g, t, visited, depth) == None
  {
    hide Chain, ForType;
    forall k: nat ensures Chain(g, Aim(g, t), k).Some? {
      LongChainForever(g, Aim(g, t).value, k);
    }
    NeverReturns(g, t, visited, depth);
  }

  /** A circle is reached within n steps although visited schemas are not entered again. */
  ghost predicate ReachesIn(g: Gen, t: TypeRef, visited: set<string>, n: nat)
    decreases n
  {
    || Circular(g, t)
    || (n > 0
        && match t
           case Array(element) => ReachesIn(g, element, visited, n - 1)
           case Ref(name, _) =>
             if name == "nullable" then false
             else if name in g.aliases then ReachesIn(g, g.aliases[name], visited, n - 1)
             else
               && name in g.byName && name !in visited
               && exists f :: f in g.byName[name].fields && Walked(g, f) && ReachesIn(g, f.typ, visited + {name}, n - 1)
           case _ => false)
  }

  lemma {:induction false} ReachesInMore(g: Gen, t: TypeRef, visited: set<string>, n: nat)
    requires ReachesIn(g, t, visited, n)
    ensures ReachesIn(g, t, visited, n + 1)
    decreases n
  {
    hide Circular, Walked;
    if n > 0 && !Circular(g, t) {
      match t
      case Array(element) => ReachesInMore(g, element, visited, n - 1);
      case Ref(name, _) =>
        if name in g.aliases {
          ReachesInMore(g, g.aliases[name], visited, n - 1);
        } else {
          var f :| f in g.byName[name].fields && Walked(g, f) && ReachesIn(g, f.typ, visited + {name}, n - 1);
          ReachesInMore(g, f.typ, visited + {name}, n - 1);
        }
    }
  }

  /** A way to a circle that meets no visited schema can be cut short until it enters no schema twice. */
  lemma {:induction false} Shortcut(g: Gen, t: TypeRef, visited: set<string>, n: nat)
    requires Reaches(g, t, n) && forall x :: x in visited ==> !Reaches(g, Ref(x, None), n)
    ensures ReachesIn(g, t, visited, n)
    decreases n
  {
    hide Circular, Walked;
    if n > 0 && !Circular(g, t) {
      forall x | x in visited ensures !Reaches(g, Ref(x, None), n - 1) {
        if Reaches(g, Ref(x, None), n - 1) {
          ReachesMore(g, Ref(x, None), n - 1);
        }
      }
      match t
      case Array(element) => Shortcut(g, element, visited, n - 1);
      case Ref(name, _) =>
        if name in g.aliases {
          Shortcut(g, g.aliases[name], visited, n - 1);
        } else {
          SameReference(g, t, n);
          SameReference(g, t, n - 1);
          if Reaches(g, t, n - 1) {
            Shortcut(g, t, visited, n - 1);
            ReachesInMore(g, t, visited, n - 1);
          } else {
            var f :| f in g.byName[name].fields && Walked(g, f) && Reaches(g, f.typ, n - 1);
            Shortcut(g, f.typ, visited + {name}, n - 1);
          }
        }
    }
  }

  lemma SameReference(g: Gen, t: TypeRef, n: nat)
    requires t.Ref?
    ensures Reaches(g, t, n) <==> Reaches(g, Ref(t.name, None), n)
  {
    hide Walked, Chain;
  }

  lemma {:induction false} ReachesNeverReturns(g: Gen, t: TypeRef, visited: set<string>, n: nat, depth: nat)
    requires visited !! g.aliases.Keys && ReachesIn(g, t, visited, n)
    ensures ForType(g, t, visited, depth) == None
    decreases n
  {
    if Circular(g, t) {
      CircularNeverReturns(g, t, visited, depth);
    } else if depth > 0 {
      hide Circular, Walked, ForFields;
      match t
      case Array(element) =>
        NotVisited(g, element, visited, n - 1);
        ReachesNeverReturns(g, element, visited, n - 1, depth - 1);
      case Ref(name, _) =>
        if name in g.aliases {
          ReachesNeverReturns(g, g.aliases[name], visited, n - 1, depth - 1);
        } else if depth > 1 {
          var f :| f in g.byName[name].fields && Walked(g, f) && ReachesIn(g, f.typ, visited + {name}, n - 1);
          forall d: nat ensures ForType(g, f.typ, visited + {name}, d) == None {
            ReachesNeverReturns(g, f.typ, visited + {name}, n - 1, d);
          }
          FieldNeverReturns(g, g.byName[name].fields, visited + {name}, f, depth - 1);
        }
    }
  }

  lemma NotVisited(g: Gen, t: TypeRef, visited: set<string>, n: nat)
    requires visited !! g.aliases.Keys && ReachesIn(g, t, visited, n)
    ensures !IsVisitedRef(t, visited)
  {
    hide Chain, Walked;
  }

  lemma {:induction false} FieldNeverReturns(g: Gen, fields: seq<Field>, visited: set<string>, f: Field, depth: nat)
    requires depth > 0 && f in fields && Walked(g, f) && forall d: nat :: ForType(g, f.typ, visited, d) == None
    ensures ForFields(g, fields, visited, depth) == None
    decreases |fields|
  {
    hide ForType;
    var n := |fields| - 1;
    assert fields == fields[..n] + [fields[n]];
    if fields[n] == f {
      assert ForField(g, f, visited, depth - 1) == None;
    } else {
      FieldNeverReturns(g, fields[..n], visited, f, depth);
    }
  }

  // ----- Exactly when the generator returns -----

  /** The walk from the type comes to an end. */
  ghost predicate Returns(g: Gen, t: TypeRef, visited: set<string>) {
    exists d: nat :: ForType(g, t, visited, d).Some?
  }

  /** From the start, the walk over a type returns exactly when no circle of aliases can be reached from it. */
  lemma TypeReturnsExactly(g: Gen, t: TypeRef)
    ensures Returns(g, t, {}) <==> Clean(g, t)
  {
    hide ForType;
    if Clean(g, t) {
      var d := TypeReturns(g, t, {});
    } else {
      var n: nat :| Reaches(g, t, n);
      Shortcut(g, t, {}, n);
      forall d: nat ensures ForType(g, t, {}, d) == None {
        ReachesNeverReturns(g, t, {}, n, d);
      }
    }
  }

  /** It returns for every type there could be exactly when no aliases stand for each other in a circle. */
  lemma ReturnsExactly(g: Gen)
    ensures AliasesAcyclic(g) <==> forall t :: Returns(g, t, {})
  {
    hide Returns, Chain;
    if AliasesAcyclic(g) {
      forall t ensures Returns(g, t, {}) {
        forall n: nat ensures !Reaches(g, t, n) {
          NothingCircular(g, t, n);
        }
        TypeReturnsExactly(g, t);
      }
    } else {
      var name :| name in g.aliases && name != "nullable" && Chain(g, Some(name), |g.aliases|) != None;
      assert Reaches(g, Ref(name, None), 0);
      TypeReturnsExactly(g, Ref(name, None));
    }
  }

  lemma {:induction false} NothingCircular(g: Gen, t: TypeRef, n: nat)
    requires AliasesAcyclic(g)
    ensures !Reaches(g, t, n)
    decreases n
  {
    hide Chain, Walked;
    AimIsNotNullable(g, t);
    if Reaches(g, t, n) {
      match t
      case Array(element) => NothingCircular(g, element, n - 1);
      case Ref(name, _) =>
        if name in g.aliases {
          NothingCircular(g, g.aliases[name], n - 1);
        } else {
          var f :| f in g.byName[name].fields && Walked(g, f) && Reaches(g, f.typ, n - 1);
          NothingCircular(g, f.typ, n - 1);
        }
    }
  }

  lemma {:induction false} AimIsNotNullable(g: Gen, t: TypeRef)
    ensures Aim(g, t) != Some("nullable")
  {
    if t.Array? {
      AimIsNotNullable(g, t.element);
    }
  }

  /** The walk over a schema returns exactly when no walked field of it comes to a circle of aliases. */
  lemma SchemaReturnsExactly(g: Gen, s: Schema)
    ensures (exists d: nat :: ForSchema(g, s, {}, d).Some?) <==> CleanFields(g, s.fields)
  {
    if CleanFields(g, s.fields) {
      var d := SchemaReturns(g, s, {});
    } else {
      hide ForType, Walked, ForFields;
      var f :| f in s.fields && Walked(g, f) && !Clean(g, f.typ);
      TypeReturnsExactly(g, f.typ);
      forall d: nat ensures ForSchema(g, s, {}, d) == None {
        if d > 0 {
          FieldNeverReturns(g, s.fields, {}, f, d);
        }
      }
    }
  }

  lemma {:induction false} EmitMore(g: Gen, schemas: seq<Schema>, d: nat, d': nat)
    requires d <= d' && Emit(g, schemas, d).Some?
    ensures Emit(g, schemas, d') == Emit(g, schemas, d)
    decreases |schemas|
  {
    hide ForFields;
    if schemas != [] {
      EmitMore(g, schemas[..|schemas| - 1], d, d');
      MoreDepthFields(g, schemas[|schemas| - 1].fields, {}, d, d');
    }
  }

  lemma {:induction false} EmitReturns(g: Gen, schemas: seq<Schema>) returns (d: nat)
    requires forall s :: s in schemas ==> CleanFields(g, s.fields)
    ensures Emit(g, schemas, d).Some?
    decreases |schemas|
  {
    hide CleanFields, ForFields;
    d := 0;
    if schemas != [] {
      var n := |schemas| - 1;
      var front := EmitReturns(g, schemas[..n]);
      var last := SchemaReturns(g, schemas[n], {});
      d := front + last;
      EmitMore(g, schemas[..n], front, d);
      MoreDepthFields(g, schemas[n].fields, {}, last, d);
    }
  }

  lemma {:induction false} EmitNeedsAll(g: Gen, schemas: seq<Schema>, d: nat, s: Schema)
    requires Emit(g, schemas, d).Some? && s in schemas
    ensures ForSchema(g, s, {}, d).Some?
    decreases |schemas|
  {
    hide ForSchema;
    var n := |schemas| - 1;
    assert schemas == schemas[..n] + [schemas[n]];
    if s != schemas[n] {
      EmitNeedsAll(g, schemas[..n], d, s);
    }
  }

  /** The generator returns exactly when no circle of aliases can be reached from a walked field of any schema. */
  lemma EmitReturnsExactly(schemas: seq<Schema>, aliases: seq<Alias>, p: Parsers)
    ensures var g := Generator(schemas, aliases, p);
            (exists d: nat :: Emit(g, schemas, d).Some?) <==> forall s :: s in schemas ==> CleanFields(g, s.fields)
  {
    hide CleanFields, ForSchema, Emit, Generator;
    var g := Generator(schemas, aliases, p);
    if forall s :: s in schemas ==> CleanFields(g, s.fields) {
      var d := EmitReturns(g, schemas);
    }
    if d: nat :| Emit(g, schemas, d).Some? {
      forall s | s in schemas ensures CleanFields(g, s.fields) {
        EmitNeedsAll(g, schemas, d, s);
        SchemaReturnsExactly(g, s);
      }
    }
  }

  /** One example for each schema name. */
  lemma {:induction false} OneExamplePerSchema(g: Gen, schemas: seq<Schema>, depth: nat)
    requires Emit(g, schemas, depth).Some?
    ensures Emit(g, schemas, depth).value.Keys == set s | s in schemas :: s.name
    decreases |schemas|
  {
    hide ForSchema;
    if schemas != [] {
      var n := |schemas| - 1;
      OneExamplePerSchema(g, schemas[..n], depth);
      assert schemas == schemas[..n] + [schemas[n]];
      assert (set s | s in schemas :: s.name) == (set s | s in schemas[..n] :: s.name) + {schemas[n].name};
    }
  }

  /** An alias of arrays of itself: the generator runs on as soon as a field uses it, and not before. */
  lemma AliasCircleHangs(p: Parsers)
    ensures var circle := Alias("A", Array(Ref("A", None)));
            var using, idle := Schema("S", [Field("f", Ref("A", None), [], "")]), Schema("S", []);
            && (forall d: nat :: Emit(Generator([using], [circle], p), [using], d) == None)
            && (exists d: nat :: Emit(Generator([idle], [circle], p), [idle], d).Some?)
            && !AliasesAcyclic(Generator([idle], [circle], p))
  {
    hide Emit, Generator, Circular, AliasesAcyclic, Chain;
    var circle := Alias("A", Array(Ref("A", None)));
    var f := Field("f", Ref("A", None), [], "");
    var using, idle := Schema("S", [f]), Schema("S", []);
    var g, h := Generator([using], [circle], p), Generator([idle], [circle], p);
    SelfCircle(p, using, circle);
    SelfCircle(p, idle, circle);
    EmitReturnsExactly([using], [circle], p);
    EmitReturnsExactly([idle], [circle], p);
    assert f in using.fields && using in [using];
    assert Walked(g, f);
    assert Reaches(g, f.typ, 0);
    assert !CleanFields(g, using.fields);
    assert forall s :: s in [idle] ==> CleanFields(h, s.fields);
  }

  lemma SelfCircle(p: Parsers, s: Schema, a: Alias)
    requires a == Alias("A", Array(Ref("A", None)))
    ensures var g := Generator([s], [a], p); Circular(g, Ref("A", None)) && !AliasesAcyclic(g)
  {
    var g := Generator([s], [a], p);
    var one := [a];
    assert one[..|one| - 1] == [] && AliasByName([]) == map[];
    assert AliasByName(one) == map[][a.name := a.underlying];
    assert g.aliases == map["A" := Array(Ref("A", None))];
    assert |g.aliases| == 1;
    assert |"A"| != |"nullable"|;
    assert Aim(g, Ref("A", None)) == Some("A");
    assert Next(g, Some("A")) == Some("A");
    assert Chain(g, Some("A"), 1) == Chain(g, Next(g, Some("A")), 0);
  }
}
