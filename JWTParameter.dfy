/**
  JOSE header parameters (lib/JWX/JWT/Parameter/JWTParameter.php): an
  immutable name and JSON value, and the registry dispatch that turns a
  (name, value) pair read from a header into the parameter class registered
  for that name.
 */
module JWTParameter {
  import opened Common

  /** Which PHP class a parameter is an instance of. */
  datatype ParamClass =
    | Generic                       // JWTParameter itself
    | Registered(className: string) // a RegisteredJWTParameter subclass

  /** A header parameter: name and value are set by the constructor and never change. */
  datatype JWTParameter = JWTParameter(cls: ParamClass, name: string, value: Json)

  /** A registered parameter class, reduced to its static fromJSONValue factory. */
  datatype RegisteredClass = RegisteredClass(className: string, fromJSONValue: Json -> JWTParameter)

  /** RegisteredJWTParameter::$nameToCls: parameter name to registered class. */
  type Registry = map<string, RegisteredClass>

  /** The names used below. */
  const P_CTY := "cty"
  const P_ALG := "alg"
  /** ContentTypeParameter::TYPE_JWT */
  const TYPE_JWT := "JWT"

  /** The JWTParameter constructor: stores name and value unchanged. */
  function New(name: string, value: Json): (p: JWTParameter)
    ensures p.name == name && p.value == value && p.cls == Generic
  {
    JWTParameter(Generic, name, value)
  }

  /**
    JWTParameter::fromNameAndValue: a registered name is handed to its class's
    fromJSONValue; any other name gives a generic parameter with the same name
    and value.
   */
  function FromNameAndValue(name: string, value: Json, registry: Registry): (p: JWTParameter)
    ensures name !in registry ==> p.cls == Generic && p.name == name && p.value == value
    ensures name in registry ==> p == registry[name].fromJSONValue(value)
  {
    if name in registry then registry[name].fromJSONValue(value)
    else New(name, value)
  }

  /**
    A registry whose factories keep the name they are registered under and the
    value they are given, and build an instance of their own class.
   */
  ghost predicate FaithfulRegistry(registry: Registry)
  {
    forall n, v :: n in registry ==>
      var p := registry[n].fromJSONValue(v);
      p.name == n && p.value == v && p.cls == Registered(registry[n].className)
  }

  /** Under a faithful registry, fromNameAndValue never changes the name or the value. */
  lemma FromNameAndValueKeeps(name: string, value: Json, registry: Registry)
    requires FaithfulRegistry(registry)
    ensures FromNameAndValue(name, value, registry).name == name
    ensures FromNameAndValue(name, value, registry).value == value
    ensures FromNameAndValue(name, value, registry).cls.Registered? <==> name in registry
  {
    if name in registry {
      var p := registry[name].fromJSONValue(value);
      assert p.name == name && p.value == value && p.cls == Registered(registry[name].className);
    }
  }

  /** new ContentTypeParameter($type): the "cty" parameter. */
  function ContentType(typ: string): (p: JWTParameter)
    ensures p.name == P_CTY && p.value == JString(typ)
  {
    JWTParameter(Registered("ContentTypeParameter"), P_CTY, JString(typ))
  }

  /** new AlgorithmParameter($identifier): the "alg" parameter. */
  function Algorithm(identifier: string): (p: JWTParameter)
    ensures p.name == P_ALG && p.value == JString(identifier)
  {
    JWTParameter(Registered("AlgorithmParameter"), P_ALG, JString(identifier))
  }

  /** A JOSE header: its parameters keyed by name. */
  datatype Header = Header(params: map<string, JWTParameter>)
  {
    predicate Has(name: string)
    {
      name in params
    }

    function Get(name: string): JWTParameter
      requires Has(name)
    {
      params[name]
    }

    /** Header::withParameters with one parameter: a copy holding it under its own name. */
    function WithParameter(p: JWTParameter): (h: Header)
      ensures h.Has(p.name) && h.Get(p.name) == p
      ensures forall n :: n != p.name ==> (h.Has(n) <==> Has(n))
      ensures forall n :: n != p.name && Has(n) ==> h.Get(n) == Get(n)
    {
      Header(params[p.name := p])
    }
  }

  /** new Header(): no parameters. */
  const EmptyHeader := Header(map[])
}
