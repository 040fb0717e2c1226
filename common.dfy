/**
 * kafcars-inner-macros/src/common.rs: the attribute set a field of a derived
 * struct may carry, and `option_type`, which recognises `Option<T>` in a type
 * written as a path.
 *
 * The syntax trees the derive macros receive are given here as small
 * datatypes holding just what the macros look at.
 */
module Common {
  import opened Errors
  import opened Wire

  /** A type as written in a field declaration. Anything but a path is `OtherType`. */
  datatype Ty =
    | PathType(qualifiedSelf: bool, segments: seq<Segment>)
    | OtherType

  /** One `ident<args>` segment of a path. */
  datatype Segment = Segment(ident: string, arguments: PathArguments)

  datatype PathArguments =
    | NoArguments
    | AngleBracketed(args: seq<GenericArgument>)
    | Parenthesized

  /** A generic argument: a type, or something else (a lifetime, a constant, a binding). */
  datatype GenericArgument = TypeArgument(ty: Ty) | OtherArgument

  /** A plain one-segment type such as `i32`, with no generic arguments. */
  function Named(ident: string): Ty {
    PathType(false, [Segment(ident, NoArguments)])
  }

  /** The segment `Option<inner>`. */
  function OptionSegment(inner: Ty): Segment {
    Segment("Option", AngleBracketed([TypeArgument(inner)]))
  }

  /** The type `Option<inner>`, written without a prefix. */
  function OptionOf(inner: Ty): Ty {
    PathType(false, [OptionSegment(inner)])
  }

  /** The prefixes `option_type` lets stand before `Option`: none, `std::option::` or `core::option::`. */
  predicate OptionPrefix(prefix: seq<Segment>) {
    || |prefix| == 0
    || (|prefix| == 2 && (prefix[0].ident == "std" || prefix[0].ident == "core") && prefix[1].ident == "option")
  }

  /**
   * `option_type`: the `T` of a type written `Option<T>`, `std::option::Option<T>`
   * or `core::option::Option<T>`, and None for every other type.
   */
  function OptionType(ty: Ty): (r: Option<Ty>)
    ensures r.Some? ==> ty.PathType? && !ty.qualifiedSelf && |ty.segments| > 0
    ensures r.Some? ==> ty.segments[|ty.segments| - 1] == OptionSegment(r.value)
  {
    if !ty.PathType? || ty.qualifiedSelf then None
    else
      var segments := ty.segments;
      if |segments| == 0 || segments[|segments| - 1].ident != "Option" then None
      else if !(|segments| == 1
                || (|segments| == 3
                    && (segments[0].ident == "core" || segments[0].ident == "std")
                    && segments[1].ident == "option"))
      then None
      else
        match segments[|segments| - 1].arguments
        case AngleBracketed(args) =>
          if |args| != 1 then None
          else
            assert args == [args[0]];
            (match args[0]
                case TypeArgument(inner) => Some(inner)
                case OtherArgument => None)
        case _ => None
  }

  /** Every type `option_type` accepts is `Option<T>` behind one of the three prefixes, and it returns that `T`. */
  lemma OptionTypeShape(ty: Ty)
    requires OptionType(ty).Some?
    ensures !ty.qualifiedSelf
    ensures OptionPrefix(ty.segments[..|ty.segments| - 1])
    ensures ty == PathType(false, ty.segments[..|ty.segments| - 1] + [OptionSegment(OptionType(ty).value)])
  {
    var segments := ty.segments;
    assert segments == segments[..|segments| - 1] + [segments[|segments| - 1]];
  }

  /** Conversely, each of the three spellings of `Option<T>` is recognised, whatever generic arguments the prefix segments carry. */
  lemma OptionTypeAccepts(prefix: seq<Segment>, inner: Ty)
    requires OptionPrefix(prefix)
    ensures OptionType(PathType(false, prefix + [OptionSegment(inner)])) == Some(inner)
  {
    var segments := prefix + [OptionSegment(inner)];
    assert segments[|segments| - 1] == OptionSegment(inner);
    assert |prefix| == 2 ==> segments[0] == prefix[0] && segments[1] == prefix[1];
  }

  /** A path whose last segment is not `Option`, or a qualified-self path, is not an option type. */
  lemma OptionTypeRejects(ty: Ty)
    requires ty.PathType?
    requires ty.qualifiedSelf || |ty.segments| == 0 || ty.segments[|ty.segments| - 1].ident != "Option"
    ensures OptionType(ty) == None
  {
  }

  /** Concrete refusals: a two-segment `option::Option<T>`, `Option<A, B>` and a bare `Option`. */
  lemma OptionTypeRejectsExamples(a: Ty, b: Ty)
    ensures OptionType(PathType(false, [Segment("option", NoArguments), OptionSegment(a)])) == None
    ensures OptionType(PathType(false, [Segment("Option", AngleBracketed([TypeArgument(a), TypeArgument(b)]))])) == None
    ensures OptionType(Named("Option")) == None
  {
    var two := [Segment("option", NoArguments), OptionSegment(a)];
    assert two[|two| - 1].ident == "Option";
  }

  /** The attributes of one field, `#[kafka(...)]`; versions are `i16`, paths are kept as text. */
  datatype FieldOptions = FieldOptions(
    minVersion: Option<ApiVersion>,
    maxVersion: Option<ApiVersion>,
    tag: Option<ApiVersion>,
    default: Option<string>,
    serializeWith: Option<string>,
    deserializeWith: Option<string>)

  /** Every attribute is `#[darling(default)]`: a field that names none of them gets all of them absent. */
  const NoFieldOptions: FieldOptions := FieldOptions(None, None, None, None, None, None)

  /** A field of the struct a derive macro is applied to. `options` is None when its attributes do not parse. */
  datatype Field = Field(ident: Option<string>, options: Option<FieldOptions>, ty: Ty)

  datatype Fields = NamedFields(named: seq<Field>) | UnnamedFields | UnitFields

  datatype Data = Struct(fields: Fields) | Enum | Union

  /** What a derive macro is given: the item's name and body. */
  datatype DeriveInput = DeriveInput(ident: string, data: Data)

  /** The compile errors the derive macros in this model can report. */
  datatype DeriveError =
    | OnlyStructs             // "Only structs are supported"
    | TupleStructs            // "Tuple structs are not supported"
    | UnitStructs             // "Unit structs are not supported"
    | InvalidAttributes       // an attribute list darling could not parse
    | MissingResponse         // "The response is required"
    | MissingApiKey           // "The api key is required"
}
