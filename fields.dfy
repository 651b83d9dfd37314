/** Declarative field descriptors of the Agave model layer: the record a
    field builds from its keyword arguments, the binding of a field to the
    model class that owns it, the default policy with its `NOT_PROVIDED`
    sentinel, the list coercion of list fields and the reverse accessor a
    related field registers. */
module Fields {
  import opened Common

  /** The Python values a field stores, receives or returns. */
  datatype Value =
    | NoneV
    | BoolV(b: bool)
    | IntV(i: int)
    | StrV(s: string)
    | ListV(items: seq<Value>)
    | DictV(entries: seq<(string, Value)>)
    | IterV(rest: seq<Value>)           // an iterator, with the elements it has still to yield
    | NotProvidedClass                  // the class `NOT_PROVIDED` itself
    | NotProvidedInstance               // an instance `NOT_PROVIDED()`

  /** Which of the field classes a descriptor is. */
  datatype FieldKind =
    | Plain                                                  // BaseField
    | ListKind                                               // ListField
    | NestedKind(nested: string)                             // NestedObjectField(nested)
    | RelatedKind(related: string, multiple: bool, relatedName: Option<string>)  // RelatedObjectField

  /** The keyword arguments of `BaseField.__init__`; `default` is `None`
      when the caller passes none. */
  datatype FieldArgs = FieldArgs(
    verboseName: Option<string>,
    name: Option<string>,
    maxLength: Option<int>,
    blank: bool,
    nullable: bool,
    related: Option<string>,
    default: Option<Value>,
    choices: Value,
    helpText: string,
    nested: Option<string>,
    relatedName: Option<string>)

  /** The arguments of a call that passes no keyword at all. */
  function NoArgs(): FieldArgs
  {
    FieldArgs(None, None, None, false, false, None, None, NoneV, "", None, None)
  }

  /** Python truthiness of an optional string: present and not empty. */
  predicate Truthy(s: Option<string>)
  {
    s.Some? && s.value != []
  }

  /** The name a field starts with: an explicit name is kept; failing one,
      a verbose name lower-cased with every space turned into `_`. */
  function DerivedName(name: Option<string>, verboseName: Option<string>): (r: Option<string>)
    ensures Truthy(name) || !Truthy(verboseName) ==> r == name
    ensures !Truthy(name) && Truthy(verboseName) ==>
      r.Some? && |r.value| == |verboseName.value| &&
      forall i :: 0 <= i < |r.value| ==>
        r.value[i] == if verboseName.value[i] == ' ' then '_' else LowerChar(verboseName.value[i])
  {
    if !Truthy(name) && Truthy(verboseName) then Some(ReplaceChar(Lower(verboseName.value), ' ', '_'))
    else name
  }

  /** A derived name holds no space and no upper-case letter. */
  lemma DerivedNameShape(verboseName: string)
    requires verboseName != []
    ensures var r := DerivedName(None, Some(verboseName)).value;
      ' ' !in r && IsLowerCase(r)
  {
    var r := DerivedName(None, Some(verboseName)).value;
    forall i | 0 <= i < |r| ensures r[i] != ' ' && !('A' <= r[i] <= 'Z') {
    }
  }

  /** The `choices` a field keeps: the elements an iterator yields, in
      order; anything else, a list included, leaves no choices. */
  function ChoicesOf(choices: Value): (r: seq<Value>)
    ensures choices.IterV? ==> r == choices.rest
    ensures !choices.IterV? ==> r == []
  {
    if choices.IterV? then choices.rest else []
  }

  /** The default a field of `kind` starts with when the caller passes
      `given` (or nothing): the sentinel class for plain and related
      fields, `[]` for list fields, `{}` for nested fields. */
  function InitialDefault(kind: FieldKind, given: Option<Value>): (r: Value)
    ensures given.Some? ==> r == given.value
    ensures given.None? && kind.ListKind? ==> r == ListV([])
    ensures given.None? && kind.NestedKind? ==> r == DictV([])
    ensures given.None? && (kind.Plain? || kind.RelatedKind?) ==> r == NotProvidedClass
  {
    match given
    case Some(v) => v
    case None =>
      match kind
      case ListKind => ListV([])
      case NestedKind(_) => DictV([])
      case _ => NotProvidedClass
  }

  /** `get_default` on a stored default: the value itself, unless it is an
      instance of `NOT_PROVIDED`, which raises. The class `NOT_PROVIDED`
      is not an instance of itself, so it is returned. */
  function DefaultOf(d: Value): (r: Result<Value>)
    ensures r.Err? <==> d.NotProvidedInstance?
    ensures r.Err? ==> r.error == ValueError("No default set")
    ensures r.Ok? ==> r.value == d
  {
    if d.NotProvidedInstance? then Err(ValueError("No default set")) else Ok(d)
  }

  /** A plain field built without a default does not raise on
      `get_default`: it hands back the sentinel class. Only a caller that
      passes `NOT_PROVIDED()` explicitly makes it raise. */
  lemma UnsetDefaultIsReturned(kind: FieldKind, given: Option<Value>)
    ensures given.None? && (kind.Plain? || kind.RelatedKind?) ==>
      DefaultOf(InitialDefault(kind, given)) == Ok(NotProvidedClass)
    ensures DefaultOf(InitialDefault(kind, given)).Err? <==> given == Some(NotProvidedInstance)
  {
  }

  /** `list(v)`: the elements of a list or an iterator, the characters of
      a string, the keys of a dict; other values are not iterable. */
  function ListOf(v: Value): (r: Result<Value>)
    ensures r.Ok? ==> r.value.ListV?
    ensures r.Err? <==> !(v.ListV? || v.IterV? || v.StrV? || v.DictV?)
    ensures v.ListV? ==> r == Ok(v)
    ensures v.IterV? ==> r == Ok(ListV(v.rest))
    ensures v.StrV? ==> (|r.value.items| == |v.s| &&
      forall i :: 0 <= i < |v.s| ==> r.value.items[i] == StrV([v.s[i]]))
    ensures v.DictV? ==> (|r.value.items| == |v.entries| &&
      forall i :: 0 <= i < |v.entries| ==> r.value.items[i] == StrV(v.entries[i].0))
  {
    match v
    case ListV(items) => Ok(v)
    case IterV(rest) => Ok(ListV(rest))
    case StrV(s) => Ok(ListV(seq(|s|, i requires 0 <= i < |s| => StrV([s[i]]))))
    case DictV(entries) => Ok(ListV(seq(|entries|, i requires 0 <= i < |entries| => StrV(entries[i].0))))
    case _ => Err(TypeError("object is not iterable"))
  }

  /** `to_python` of a field of `kind`: the identity, except that a list
      field converts with `list`. */
  function ToPython(kind: FieldKind, v: Value): (r: Result<Value>)
    ensures !kind.ListKind? ==> r == Ok(v)
    ensures kind.ListKind? ==> (r.Ok? ==> r.value.ListV?) && (v.ListV? ==> r == Ok(v))
    ensures kind.ListKind? && r.Err? ==> r.error.TypeError?
  {
    if kind.ListKind? then ListOf(v) else Ok(v)
  }

  /** Converting a converted value again changes nothing. */
  lemma ToPythonIdempotent(kind: FieldKind, v: Value)
    requires ToPython(kind, v).Ok?
    ensures ToPython(kind, ToPython(kind, v).value) == ToPython(kind, v)
  {
  }

  /** `clean(v)`: the value `to_python` gives, so the identity on plain,
      nested and related fields and `list(v)` on list fields. */
  function Clean(kind: FieldKind, v: Value): (r: Result<Value>)
    ensures !kind.ListKind? ==> r == Ok(v)
    ensures kind.ListKind? ==> (r.Ok? ==> r.value.ListV?) && (v.ListV? ==> r == Ok(v))
  {
    ToPython(kind, v)
  }

  /** The reverse accessor a related field registers: its `related_name`
      when given and not empty, otherwise the owning class's name in lower
      case followed by `_set`. */
  function ReverseName(relatedName: Option<string>, className: string): (r: string)
    ensures Truthy(relatedName) ==> r == relatedName.value
    ensures !Truthy(relatedName) ==>
      |r| == |className| + 4 && r[|className|..] == "_set" &&
      forall i :: 0 <= i < |className| ==> r[i] == LowerChar(className[i])
  {
    if Truthy(relatedName) then relatedName.value else Lower(className) + "_set"
  }

  /** Without explicit names, two classes are told apart by their reverse
      accessors exactly when their lower-cased names differ. */
  lemma ReverseNameDistinguishes(c1: string, c2: string)
    ensures ReverseName(None, c1) == ReverseName(None, c2) <==> Lower(c1) == Lower(c2)
  {
    var r1, r2 := ReverseName(None, c1), ReverseName(None, c2);
    if r1 == r2 {
      assert |c1| == |c2|;
      assert r1[..|c1|] == Lower(c1);
      assert r2[..|c2|] == Lower(c2);
    }
  }

  /** One pending relation: the related model gains `reverseName`,
      pointing back at `modelName`. */
  datatype LazyRel = LazyRel(related: Option<string>, reverseName: string, modelName: string, multiple: bool)

  /** The process-wide list of relations waiting for their models. */
  class LazyRegistry {
    var pending: seq<LazyRel>

    constructor()
      ensures pending == []
    {
      pending := [];
    }

    method Register(related: Option<string>, reverseName: string, modelName: string, multiple: bool)
      modifies this
      ensures pending == old(pending) + [LazyRel(related, reverseName, modelName, multiple)]
    {
      pending := pending + [LazyRel(related, reverseName, modelName, multiple)];
    }
  }

  /** A model class: its Python class name, its `model_name`, and the
      field registry of its `_meta`. */
  class ModelClass {
    const className: string
    const modelName: string
    var fields: seq<Field>

    constructor(className: string, modelName: string)
      ensures this.className == className && this.modelName == modelName && fields == []
    {
      this.className := className;
      this.modelName := modelName;
      fields := [];
    }
  }

  class Field {
    const kind: FieldKind
    var verboseName: Option<string>
    var name: Option<string>
    var maxLength: Option<int>
    var blank: bool
    var nullable: bool
    var related: Option<string>
    var default: Value
    var choices: seq<Value>
    var helpText: string
    var nested: Option<string>
    var attname: Option<string>
    var relatedName: Option<string>
    var multiple: bool
    var model: ModelClass?

    /** The field classes' `__init__`: the arguments recorded, the kind's
        own `nested`, `related` and `related_name` taking precedence, the
        choices and the name derived, the default chosen by kind. */
    constructor(kind: FieldKind, args: FieldArgs)
      ensures this.kind == kind
      ensures verboseName == args.verboseName
      ensures name == DerivedName(args.name, args.verboseName)
      ensures maxLength == args.maxLength && blank == args.blank && nullable == args.nullable
      ensures helpText == args.helpText
      ensures default == InitialDefault(kind, args.default)
      ensures choices == ChoicesOf(args.choices)
      ensures nested == if kind.NestedKind? then Some(kind.nested) else args.nested
      ensures related == if kind.RelatedKind? then Some(kind.related) else args.related
      ensures relatedName == if kind.RelatedKind? then kind.relatedName else args.relatedName
      ensures multiple == (kind.RelatedKind? && kind.multiple)
      ensures attname == None && model == null
    {
      this.kind := kind;
      verboseName := args.verboseName;
      name := args.name;
      maxLength := args.maxLength;
      blank := args.blank;
      nullable := args.nullable;
      related := if kind.RelatedKind? then Some(kind.related) else args.related;
      default := InitialDefault(kind, args.default);
      helpText := args.helpText;
      nested := if kind.NestedKind? then Some(kind.nested) else args.nested;
      attname := None;
      relatedName := if kind.RelatedKind? then kind.relatedName else args.relatedName;
      multiple := kind.RelatedKind? && kind.multiple;
      model := null;
      new;
      choices := ChoicesOf(args.choices);
      if !Truthy(name) && Truthy(verboseName) {
        name := Some(ReplaceChar(Lower(verboseName.value), ' ', '_'));
      }
    }

    /** `get_default()`. */
    function GetDefault(): (r: Result<Value>)
      reads this
      ensures r.Err? <==> default.NotProvidedInstance?
      ensures r.Ok? ==> r.value == default
    {
      DefaultOf(default)
    }

    /** `contribute_to_class(cls, n)`: the name filled in only when still
        empty, the attribute name always set, the verbose name derived only
        when it was never given; the field is appended once to the class's
        registry, and a related field registers its reverse accessor. */
    method ContributeToClass(cls: ModelClass, n: string, registry: LazyRegistry)
      modifies this, cls, registry
      ensures name == if Truthy(old(name)) then old(name) else Some(n)
      ensures attname == Some(n)
      ensures verboseName == if old(verboseName).None? then Some(ReplaceChar(n, '_', ' ')) else old(verboseName)
      ensures model == cls
      ensures cls.fields == old(cls.fields) + [this]
      ensures registry.pending == old(registry.pending) +
        (if kind.RelatedKind?
         then [LazyRel(old(related), ReverseName(old(relatedName), cls.className), cls.modelName, old(multiple))]
         else [])
      ensures default == old(default) && choices == old(choices) && related == old(related) &&
              relatedName == old(relatedName) && multiple == old(multiple) && nested == old(nested)
      ensures maxLength == old(maxLength) && blank == old(blank) && nullable == old(nullable) &&
              helpText == old(helpText)
    {
      if !Truthy(name) {
        name := Some(n);
      }
      attname := Some(n);
      if verboseName.None? {
        verboseName := Some(ReplaceChar(n, '_', ' '));
      }
      model := cls;
      cls.fields := cls.fields + [this];
      if kind.RelatedKind? {
        var reverse := ReverseName(relatedName, cls.className);
        registry.Register(related, reverse, cls.modelName, multiple);
      }
    }
  }
}
