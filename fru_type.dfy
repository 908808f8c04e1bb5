/**
 * The runtime type descriptor (src/interpreter/value/fru_type.rs): a
 * type's fields, its static fields (updated in place), its properties and
 * methods, its operator table (insert-only), and instantiation, which binds
 * the evaluated arguments of a constructor call to the declared fields.
 *
 * Evaluating a getter and executing a setter belong to the evaluator; they
 * arrive as parameters.
 */
module FruTypes {
  import opened Wrappers
  import opened Identifiers
  import Syntax

  /** A runtime value (`FruValue`); a type value is a reference to its descriptor. */
  datatype Value =
    | Nah
    | Number(n: real)
    | Bool(b: bool)
    | Str(s: string)
    | Function(fn: FruFunction)
    | TypeValue(ty: FruType)
    | Object(ty: FruType, fields: seq<Value>)
    | NativeObject(handle: nat)

  /** The scope a function body runs in: one made for a type (`Scope::new_with_type`) or any other. */
  datatype Scope = TypeScope(ty: FruType) | OtherScope(handle: nat)

  /** A user function: parameter names, body and captured scope. */
  datatype FruFunction = FruFunction(parameters: seq<Identifier>, body: Syntax.Stmt, scope: Scope)

  /** A property: an optional getter expression and an optional setter (value name and body). */
  datatype Property = Property(ident: Identifier, getter: Option<Syntax.Expr>, setter: Option<(Identifier, Syntax.Stmt)>)

  /** An entry of the operator table; what it runs is the evaluator's business. */
  datatype AnyOperator = BuiltinOperator(handle: nat) | UserOperator(fn: FruFunction)

  /** One evaluated constructor argument: an optional field name and the value. */
  datatype Arg = Arg(name: Option<Identifier>, value: Value)

  /** The errors this file raises (`fru_err_res!`), plus the index panic of line 214. */
  datatype FruError =
    | NoGetter(ident: Identifier)
    | NoSetter(ident: Identifier)
    | StaticPropNotFound(ident: Identifier)
    | OperatorAlreadySet(ident: Identifier)
    | SetMoreThanOnce(ident: Identifier)
    | MissingField(ident: Identifier)
    | FieldDoesNotExist(ident: Identifier)
    | IndexOutOfBounds(index: nat)
    | Raised(message: string)

  /** The index of the first of `fields[i..]` named `ident`. */
  function FindField(fields: seq<Syntax.FruField>, ident: Identifier, i: nat): (r: Option<nat>)
    decreases |fields| - i
    ensures r.Some? ==> i <= r.value < |fields| && fields[r.value].ident == ident
    ensures r.Some? ==> forall j :: i <= j < r.value ==> fields[j].ident != ident
    ensures r.None? ==> forall j :: i <= j < |fields| ==> fields[j].ident != ident
  {
    if i >= |fields| then None
    else if fields[i].ident == ident then Some(i)
    else FindField(fields, ident, i + 1)
  }

  class FruType {
    const ident: Identifier
    const typeFlavor: Syntax.TypeFlavor
    const fields: seq<Syntax.FruField>
    var staticFields: map<Identifier, Value>
    const properties: map<Identifier, Property>
    const staticProperties: map<Identifier, Property>
    const methods: map<Identifier, FruFunction>
    const staticMethods: map<Identifier, FruFunction>
    var operators: map<OperatorIdentifier, AnyOperator>
    const scope: Scope

    /** `FruType::new_value`: the operator table starts empty. */
    constructor (ident: Identifier, typeFlavor: Syntax.TypeFlavor, fields: seq<Syntax.FruField>,
                 staticFields: map<Identifier, Value>,
                 properties: map<Identifier, Property>, staticProperties: map<Identifier, Property>,
                 methods: map<Identifier, FruFunction>, staticMethods: map<Identifier, FruFunction>,
                 scope: Scope)
      ensures this.ident == ident && this.typeFlavor == typeFlavor && this.fields == fields
      ensures this.staticFields == staticFields
      ensures this.properties == properties && this.staticProperties == staticProperties
      ensures this.methods == methods && this.staticMethods == staticMethods
      ensures this.scope == scope && operators == map[]
    {
      this.ident := ident;
      this.typeFlavor := typeFlavor;
      this.fields := fields;
      this.staticFields := staticFields;
      this.properties := properties;
      this.staticProperties := staticProperties;
      this.methods := methods;
      this.staticMethods := staticMethods;
      this.scope := scope;
      operators := map[];
    }

    /** `get_field_k`: the position of the first field named `ident`. */
    function GetFieldK(ident: Identifier): (r: Option<nat>)
      ensures r.Some? ==> r.value < |fields| && fields[r.value].ident == ident
      ensures r.Some? ==> forall j :: 0 <= j < r.value ==> fields[j].ident != ident
      ensures r.None? <==> forall j :: 0 <= j < |fields| ==> fields[j].ident != ident
    {
      FindField(fields, ident, 0)
    }

    /** `get_property`: an instance property by name. */
    function GetProperty(ident: Identifier): (r: Option<Property>)
      ensures r.Some? <==> ident in properties
      ensures r.Some? ==> r.value == properties[ident]
    {
      if ident in properties then Some(properties[ident]) else None
    }

    /** `get_method`: an instance method by name. */
    function GetMethod(ident: Identifier): (r: Option<FruFunction>)
      ensures r.Some? <==> ident in methods
      ensures r.Some? ==> r.value == methods[ident]
    {
      if ident in methods then Some(methods[ident]) else None
    }

    /**
     * `get_prop`: a static member by name.  A static field wins over a
     * static property, which wins over a static method; a static method is
     * returned as a function bound to a scope made for this type.
     * `eval` evaluates a getter in a scope (`returned(getter.evaluate(..))`).
     */
    function GetProp(ident: Identifier, eval: (Syntax.Expr, Scope) -> Result<Value, FruError>): (r: Result<Value, FruError>)
      reads this
      ensures r.Success? ==> ident in staticFields || ident in staticProperties || ident in staticMethods
      ensures ident in staticFields ==> r == Success(staticFields[ident])
      ensures ident !in staticFields && ident in staticProperties && staticProperties[ident].getter.Some? ==>
        r == eval(staticProperties[ident].getter.value, TypeScope(this))
      ensures ident !in staticFields && ident in staticProperties && staticProperties[ident].getter.None? ==>
        r == Failure(NoGetter(ident))
      ensures ident !in staticFields && ident !in staticProperties && ident in staticMethods ==>
        r.Success? && r.value.Function? && r.value.fn.scope == TypeScope(this) &&
        r.value.fn.parameters == staticMethods[ident].parameters &&
        r.value.fn.body == staticMethods[ident].body
      ensures ident !in staticFields && ident !in staticProperties && ident !in staticMethods ==>
        r == Failure(StaticPropNotFound(ident))
    {
      if ident in staticFields then Success(staticFields[ident])
      else if ident in staticProperties then
        match staticProperties[ident].getter
        case Some(getter) => eval(getter, TypeScope(this))
        case None => Failure(NoGetter(ident))
      else if ident in staticMethods then
        var m := staticMethods[ident];
        Success(Function(FruFunction(m.parameters, m.body, TypeScope(this))))
      else Failure(StaticPropNotFound(ident))
    }

    /**
     * `set_prop`: assign a static field in place, or run a static
     * property's setter.  `exec` binds the value to the setter's name in a
     * scope made for this type and runs the body.
     */
    method SetProp(ident: Identifier, value: Value,
                   exec: (Identifier, Value, Syntax.Stmt, Scope) -> Outcome<FruError>)
      returns (r: Outcome<FruError>)
      modifies this
      ensures staticFields.Keys == old(staticFields.Keys)
      ensures ident in old(staticFields) ==> r == Pass && staticFields == old(staticFields)[ident := value]
      ensures ident !in old(staticFields) ==> staticFields == old(staticFields)
      ensures ident !in old(staticFields) && ident in staticProperties ==>
        match staticProperties[ident].setter
        case None => r == Fail(NoSetter(ident))
        case Some(setter) => r == exec(setter.0, value, setter.1, TypeScope(this))
      ensures ident !in old(staticFields) && ident !in staticProperties ==> r == Fail(StaticPropNotFound(ident))
      ensures operators == old(operators)
    {
      if ident in staticFields {
        staticFields := staticFields[ident := value];
        return Pass;
      }
      if ident in staticProperties {
        match staticProperties[ident].setter {
          case Some(setter) =>
            r := exec(setter.0, value, setter.1, TypeScope(this));
          case None =>
            r := Fail(NoSetter(ident));
        }
        return;
      }
      r := Fail(StaticPropNotFound(ident));
    }

    /** `get_operator`: the operator registered under exactly this key. */
    function GetOperator(key: OperatorIdentifier): (r: Option<AnyOperator>)
      reads this
      ensures r.Some? <==> key in operators
      ensures r.Some? ==> r.value == operators[key]
    {
      if key in operators then Some(operators[key]) else None
    }

    /** `set_operator`: register an operator under a vacant key; an occupied key is refused. */
    method SetOperator(key: OperatorIdentifier, value: AnyOperator) returns (r: Outcome<FruError>)
      modifies this
      ensures key in old(operators) ==> r == Fail(OperatorAlreadySet(key.op)) && operators == old(operators)
      ensures key !in old(operators) ==> r == Pass && operators == old(operators)[key := value]
      ensures r.Pass? ==> GetOperator(key) == Some(value)
      ensures forall k :: k in old(operators) ==> k in operators && operators[k] == old(operators)[k]
      ensures staticFields == old(staticFields)
    {
      if key in operators {
        return Fail(OperatorAlreadySet(key.op));
      }
      operators := operators[key := value];
      r := Pass;
    }

    // -------------------------------------------------------------------
    // Instantiation (lines 206-236)

    /** The field argument `n` names: its own name, or else the field at its position. */
    function ResolvedName(args: seq<Arg>, n: nat): (r: Option<Identifier>)
      requires n < |args|
      ensures r.None? <==> args[n].name.None? && n >= |fields|
    {
      if args[n].name.Some? then args[n].name
      else if n < |fields| then Some(fields[n].ident)
      else None
    }

    /** The first loop (lines 211-220) over the first `k` arguments: the map from field name to value. */
    function Bound(args: seq<Arg>, k: nat): (r: Result<map<Identifier, Value>, FruError>)
      requires k <= |args|
    {
      if k == 0 then Success(map[])
      else
        var m :- Bound(args, k - 1);
        var name := ResolvedName(args, k - 1);
        if name.None? then Failure(IndexOutOfBounds(k - 1))
        else if name.value in m then Failure(SetMoreThanOnce(name.value))
        else Success(m[name.value := args[k - 1].value])
    }

    /**
     * The second loop (lines 222-229) over the first `k` fields: the
     * values in field order and what is left of the map, or the first
     * field found missing.
     */
    function Collected(m: map<Identifier, Value>, k: nat): (r: Result<(seq<Value>, map<Identifier, Value>), FruError>)
      requires k <= |fields|
    {
      if k == 0 then Success(([], m))
      else
        var p :- Collected(m, k - 1);
        var name := fields[k - 1].ident;
        if name in p.1 then Success((p.0 + [p.1[name]], p.1 - {name}))
        else Failure(MissingField(name))
    }

    /**
     * What `instantiate` may return for `args`: the first error of the
     * first two loops, else a "does not exist" error for some argument name
     * that is left over (which one depends on the hash map's order), else
     * the new object.
     */
    ghost predicate Instantiated(args: seq<Arg>, r: Result<Value, FruError>) {
      match Bound(args, |args|)
      case Failure(e) => r == Failure(e)
      case Success(m) =>
        match Collected(m, |fields|)
        case Failure(e) => r == Failure(e)
        case Success(p) =>
          if p.1 == map[] then r == Success(Object(this, p.0))
          else r.Failure? && r.error.FieldDoesNotExist? && r.error.ident in p.1
    }

    /** `instantiate`: bind the arguments to the fields and build the object. */
    method Instantiate(args: seq<Arg>) returns (r: Result<Value, FruError>)
      ensures Instantiated(args, r)
    {
      var objFields: map<Identifier, Value> := map[];
      for n := 0 to |args|
        invariant Bound(args, n) == Success(objFields)
      {
        var name: Identifier;
        if args[n].name.Some? {
          name := args[n].name.value;
        } else {
          if n >= |fields| {
            BoundStops(args, n + 1);
            return Failure(IndexOutOfBounds(n));
          }
          name := fields[n].ident;
        }
        if name in objFields {
          BoundStops(args, n + 1);
          return Failure(SetMoreThanOnce(name));
        }
        objFields := objFields[name := args[n].value];
      }

      var values: seq<Value> := [];
      ghost var bound := objFields;
      for k := 0 to |fields|
        invariant Collected(bound, k) == Success((values, objFields))
      {
        var name := fields[k].ident;
        if name !in objFields {
          CollectedStops(bound, k + 1);
          return Failure(MissingField(name));
        }
        values := values + [objFields[name]];
        objFields := objFields - {name};
      }

      if objFields != map[] {
        var name :| name in objFields;
        return Failure(FieldDoesNotExist(name));
      }
      r := Success(Object(this, values));
    }

    /** Once the first loop fails it stays failed. */
    lemma {:induction false} BoundStops(args: seq<Arg>, k: nat)
      requires 0 < k <= |args| && Bound(args, k).Failure?
      ensures Bound(args, |args|) == Bound(args, k)
      decreases |args| - k
    {
      if k < |args| {
        BoundStops(args, k + 1);
      }
    }

    /** Once the second loop fails it stays failed. */
    lemma {:induction false} CollectedStops(m: map<Identifier, Value>, k: nat)
      requires 0 < k <= |fields| && Collected(m, k).Failure?
      ensures Collected(m, |fields|) == Collected(m, k)
      decreases |fields| - k
    {
      if k < |fields| {
        CollectedStops(m, k + 1);
      }
    }
  
    /** Every one of the first `k` arguments names a field, and no two name the same one. */
    predicate NamesDistinct(args: seq<Arg>, k: nat)
      requires k <= |args|
    {
      && (forall n :: 0 <= n < k ==> ResolvedName(args, n).Some?)
      && (forall n1, n2 :: 0 <= n1 < n2 < k ==> ResolvedName(args, n1) != ResolvedName(args, n2))
    }

    /** One of the first `k` arguments names `x`. */
    predicate NamedBy(args: seq<Arg>, k: nat, x: Identifier)
      requires k <= |args|
    {
      exists n :: 0 <= n < k && ResolvedName(args, n) == Some(x)
    }

    /** `x` is the name of a declared field. */
    predicate IsField(x: Identifier) {
      exists i :: 0 <= i < |fields| && fields[i].ident == x
    }

    /** No two of the first `k` declared fields share a name. */
    predicate FieldsDistinct(k: nat)
      requires k <= |fields|
    {
      forall i, j :: 0 <= i < j < k ==> fields[i].ident != fields[j].ident
    }

    /** After the first loop the map holds exactly the names the arguments give, each with its argument's value. */
    lemma {:induction false} BoundMap(args: seq<Arg>, k: nat)
      requires k <= |args| && Bound(args, k).Success?
      ensures forall x :: x in Bound(args, k).value <==> NamedBy(args, k, x)
      ensures forall n :: 0 <= n < k ==>
        (ResolvedName(args, n).Some? && ResolvedName(args, n).value in Bound(args, k).value &&
         Bound(args, k).value[ResolvedName(args, n).value] == args[n].value)
    {
      if k > 0 {
        BoundMap(args, k - 1);
        var m := Bound(args, k - 1).value;
        var name := ResolvedName(args, k - 1).value;
        var m' := m[name := args[k - 1].value];
        assert Bound(args, k).value == m';
        forall x ensures x in m' <==> NamedBy(args, k, x) {
          if NamedBy(args, k, x) && x != name {
            var n :| 0 <= n < k && ResolvedName(args, n) == Some(x);
            assert NamedBy(args, k - 1, x);
          }
        }
        forall n | 0 <= n < k
          ensures ResolvedName(args, n).Some? && ResolvedName(args, n).value in m' && m'[ResolvedName(args, n).value] == args[n].value
        {
          if n < k - 1 {
            assert ResolvedName(args, n).value in m;
          }
        }
      }
    }

    /** The first loop succeeds exactly when every argument names a field and no name is used twice. */
    lemma {:induction false} BoundSucceeds(args: seq<Arg>, k: nat)
      requires k <= |args|
      ensures Bound(args, k).Success? <==> NamesDistinct(args, k)
    {
      if k > 0 {
        BoundSucceeds(args, k - 1);
        var prev := Bound(args, k - 1);
        var name := ResolvedName(args, k - 1);
        if prev.Success? && name.Some? {
          BoundMap(args, k - 1);
          var m := prev.value;
          if name.value in m {
            var n :| 0 <= n < k - 1 && ResolvedName(args, n) == Some(name.value);
            assert ResolvedName(args, n) == ResolvedName(args, k - 1);
          } else {
            forall n1, n2 | 0 <= n1 < n2 < k ensures ResolvedName(args, n1) != ResolvedName(args, n2) {
              if n2 == k - 1 {
                assert ResolvedName(args, n1).value in m;
              }
            }
          }
        }
      }
    }

    /** Why the first loop fails: a name given twice, or a positional argument past the last field. */
    lemma {:induction false} BoundFails(args: seq<Arg>, k: nat)
      requires k <= |args| && Bound(args, k).Failure?
      ensures Bound(args, k).error.SetMoreThanOnce? || Bound(args, k).error.IndexOutOfBounds?
      ensures Bound(args, k).error.SetMoreThanOnce? ==>
        exists n1, n2 :: 0 <= n1 < n2 < k && ResolvedName(args, n1) == ResolvedName(args, n2) == Some(Bound(args, k).error.ident)
      ensures Bound(args, k).error.IndexOutOfBounds? ==>
        Bound(args, k).error.index < k && ResolvedName(args, Bound(args, k).error.index).None?
    {
      var prev := Bound(args, k - 1);
      if prev.Failure? {
        BoundFails(args, k - 1);
      } else if ResolvedName(args, k - 1).Some? {
        BoundMap(args, k - 1);
        var x := ResolvedName(args, k - 1).value;
        var n :| 0 <= n < k - 1 && ResolvedName(args, n) == Some(x);
        assert ResolvedName(args, n) == ResolvedName(args, k - 1);
      }
    }

    /** The second loop gets through the first `k` fields exactly when each is bound and their names are distinct. */
    lemma {:induction false} CollectedSucceeds(m: map<Identifier, Value>, k: nat)
      requires k <= |fields|
      ensures Collected(m, k).Success? <==> (forall i :: 0 <= i < k ==> fields[i].ident in m) && FieldsDistinct(k)
      ensures Collected(m, k).Success? ==> forall x :: x in Collected(m, k).value.1 <==> x in m && forall i :: 0 <= i < k ==> fields[i].ident != x
    {
      if k > 0 {
        CollectedSucceeds(m, k - 1);
        var prev := Collected(m, k - 1);
        var name := fields[k - 1].ident;
        if prev.Success? {
          var p := prev.value;
          if name in p.1 {
            var q := (p.0 + [p.1[name]], p.1 - {name});
            assert Collected(m, k) == Success(q);
            forall x ensures x in q.1 <==> x in m && forall i :: 0 <= i < k ==> fields[i].ident != x {
              if x in m && x != name {
                assert (forall i :: 0 <= i < k ==> fields[i].ident != x) <==> (forall i :: 0 <= i < k - 1 ==> fields[i].ident != x);
              }
            }
            forall i, j | 0 <= i < j < k ensures fields[i].ident != fields[j].ident {
              if j == k - 1 {
                assert fields[i].ident !in p.1;
              }
            }
          } else if name in m {
            var i :| 0 <= i < k - 1 && fields[i].ident == name;
            assert !FieldsDistinct(k) by {
              assert fields[i].ident == fields[k - 1].ident;
            }
          }
        }
      }
    }

    /** On success the second loop has taken the bound values in field order, and leaves the rest of the map as it was. */
    lemma {:induction false} CollectedValues(m: map<Identifier, Value>, k: nat)
      requires k <= |fields| && Collected(m, k).Success?
      ensures var p := Collected(m, k).value;
        |p.0| == k && (forall i :: 0 <= i < k ==> fields[i].ident in m && p.0[i] == m[fields[i].ident]) &&
        (forall x :: x in p.1 ==> x in m && p.1[x] == m[x])
    {
      if k > 0 {
        CollectedValues(m, k - 1);
        var p := Collected(m, k - 1).value;
        var name := fields[k - 1].ident;
        var q := (p.0 + [p.1[name]], p.1 - {name});
        assert Collected(m, k) == Success(q);
        forall i | 0 <= i < k ensures fields[i].ident in m && q.0[i] == m[fields[i].ident] {
          if i < k - 1 { assert q.0[i] == p.0[i]; }
        }
      }
    }

    /**
     * The second loop can only fail by naming a field that is not bound:
     * the first field, in declaration order, whose name is not left in the
     * map, because no argument gave it or an earlier field of the same name
     * took it.
     */
    lemma {:induction false} CollectedFails(m: map<Identifier, Value>, k: nat)
      requires k <= |fields| && Collected(m, k).Failure?
      ensures Collected(m, k).error.MissingField?
      ensures exists i :: (0 <= i < k && fields[i].ident == Collected(m, k).error.ident &&
        (forall j :: 0 <= j < i ==> fields[j].ident in m) && FieldsDistinct(i) &&
        (fields[i].ident !in m || exists j :: 0 <= j < i && fields[j].ident == fields[i].ident))
      ensures FieldsDistinct(k) ==>
        exists i :: 0 <= i < k && fields[i].ident == Collected(m, k).error.ident && fields[i].ident !in m &&
          forall j :: 0 <= j < i ==> fields[j].ident in m
    {
      if Collected(m, k - 1).Failure? {
        CollectedFails(m, k - 1);
      } else {
        CollectedSucceeds(m, k - 1);
        assert fields[k - 1].ident == Collected(m, k).error.ident;
      }
    }

    /**
     * The second loop over the first `k` fields succeeds exactly when each of
     * them is bound and their names are distinct. It then yields their values
     * in field order and the map without those names; otherwise it reports a
     * missing field, the first unbound one when the names are distinct.
     */
    lemma CollectedSpec(m: map<Identifier, Value>, k: nat)
      requires k <= |fields|
      ensures Collected(m, k).Success? <==> (forall i :: 0 <= i < k ==> fields[i].ident in m) && FieldsDistinct(k)
      ensures Collected(m, k).Success? ==>
        var p := Collected(m, k).value;
        |p.0| == k && (forall i :: 0 <= i < k ==> p.0[i] == m[fields[i].ident]) &&
        (forall x :: x in p.1 <==> x in m && forall i :: 0 <= i < k ==> fields[i].ident != x) &&
        (forall x :: x in p.1 ==> p.1[x] == m[x])
      ensures Collected(m, k).Failure? ==>
        Collected(m, k).error.MissingField? && exists i :: 0 <= i < k && fields[i].ident == Collected(m, k).error.ident
      ensures Collected(m, k).Failure? && FieldsDistinct(k) ==>
        exists i :: 0 <= i < k && fields[i].ident == Collected(m, k).error.ident && fields[i].ident !in m &&
          forall j :: 0 <= j < i ==> fields[j].ident in m
    {
      CollectedSucceeds(m, k);
      if Collected(m, k).Success? {
        CollectedValues(m, k);
      } else {
        CollectedFails(m, k);
      }
    }

    /**
     * `instantiate` succeeds exactly when the arguments name each declared
     * field once and name nothing else, and the fields' names are distinct.
     */
    lemma InstantiateSucceeds(args: seq<Arg>, r: Result<Value, FruError>)
      requires Instantiated(args, r)
      ensures r.Success? <==>
        NamesDistinct(args, |args|) && FieldsDistinct(|fields|) &&
        (forall i :: 0 <= i < |fields| ==> NamedBy(args, |args|, fields[i].ident)) &&
        (forall n :: 0 <= n < |args| ==> ResolvedName(args, n).Some? && IsField(ResolvedName(args, n).value))
    {
      BoundSucceeds(args, |args|);
      var b := Bound(args, |args|);
      if b.Success? {
        var m := b.value;
        BoundMap(args, |args|);
        CollectedSpec(m, |fields|);
        var c := Collected(m, |fields|);
        if c.Success? {
          var rest := c.value.1;
          if rest != map[] {
            var x :| x in rest;
            var n :| 0 <= n < |args| && ResolvedName(args, n) == Some(x);
            assert !IsField(ResolvedName(args, n).value);
          }
        } else if !forall i :: 0 <= i < |fields| ==> fields[i].ident in m {
          var i :| 0 <= i < |fields| && fields[i].ident !in m;
          assert !NamedBy(args, |args|, fields[i].ident);
        }
      }
    }

    /**
     * A new object's value list follows the field order: entry `i` is the
     * value of the argument that named field `i`.
     */
    lemma InstantiateObject(args: seq<Arg>, r: Result<Value, FruError>)
      requires Instantiated(args, r) && r.Success?
      ensures r.value.Object? && r.value.ty == this && |r.value.fields| == |fields|
      ensures forall i, n :: 0 <= i < |fields| && 0 <= n < |args| && ResolvedName(args, n) == Some(fields[i].ident) ==>
        r.value.fields[i] == args[n].value
    {
      BoundSucceeds(args, |args|);
      var m := Bound(args, |args|).value;
      BoundMap(args, |args|);
      CollectedSpec(m, |fields|);
    }

    /**
     * Which error `instantiate` reports: a name bound twice or a
     * positional argument past the last field in the first loop; then, once
     * every argument is bound, a declared field no argument named, before
     * any check for names that are not fields.
     */
    lemma InstantiateErrors(args: seq<Arg>, r: Result<Value, FruError>)
      requires Instantiated(args, r) && r.Failure?
      ensures r.error.SetMoreThanOnce? ==>
        exists n1, n2 :: 0 <= n1 < n2 < |args| && ResolvedName(args, n1) == ResolvedName(args, n2) == Some(r.error.ident)
      ensures r.error.IndexOutOfBounds? ==>
        r.error.index < |args| && args[r.error.index].name.None? && r.error.index >= |fields|
      ensures r.error.MissingField? ==> NamesDistinct(args, |args|) && IsField(r.error.ident)
      ensures r.error.MissingField? && FieldsDistinct(|fields|) ==>
        exists i :: 0 <= i < |fields| && fields[i].ident == r.error.ident && !NamedBy(args, |args|, fields[i].ident) &&
          forall j :: 0 <= j < i ==> NamedBy(args, |args|, fields[j].ident)
      ensures r.error.FieldDoesNotExist? ==> NamedBy(args, |args|, r.error.ident) && !IsField(r.error.ident)
      ensures (NamesDistinct(args, |args|) &&
               exists i :: 0 <= i < |fields| && !NamedBy(args, |args|, fields[i].ident)) ==>
        r.error.MissingField?
      ensures r.error.SetMoreThanOnce? || r.error.IndexOutOfBounds? || r.error.MissingField? || r.error.FieldDoesNotExist?
    {
      BoundSucceeds(args, |args|);
      var b := Bound(args, |args|);
      if b.Failure? {
        BoundFails(args, |args|);
      } else {
        var m := b.value;
        BoundMap(args, |args|);
        CollectedSpec(m, |fields|);
      }
    }
  }

  /** Assigning a static field and reading it back gives the stored value. */
  method SetThenGet(t: FruType, ident: Identifier, value: Value,
                    eval: (Syntax.Expr, Scope) -> Result<Value, FruError>,
                    exec: (Identifier, Value, Syntax.Stmt, Scope) -> Outcome<FruError>)
    returns (stored: Outcome<FruError>, got: Result<Value, FruError>)
    requires ident in t.staticFields
    modifies t
    ensures stored == Pass && got == Success(value)
    ensures t.staticFields.Keys == old(t.staticFields.Keys)
  {
    stored := t.SetProp(ident, value, exec);
    got := t.GetProp(ident, eval);
  }

  /** Registering two operators under one key keeps the first and refuses the second. */
  method SetOperatorTwice(t: FruType, key: OperatorIdentifier, first: AnyOperator, second: AnyOperator)
    returns (r1: Outcome<FruError>, r2: Outcome<FruError>)
    requires key !in t.operators
    modifies t
    ensures r1 == Pass && r2 == Fail(OperatorAlreadySet(key.op))
    ensures t.GetOperator(key) == Some(first)
  {
    r1 := t.SetOperator(key, first);
    r2 := t.SetOperator(key, second);
  }
}
