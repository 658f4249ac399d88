/**
 * What both entry points put at the head of the generated module: the
 * configuration with its defaults, the list of imports, and the static
 * properties taken from the front matter, some of whose names are reserved.
 */
module ModuleHeader {

  import opened Strings

  datatype Config = Config(implicitlyImportReact: bool, passElementProps: bool)

  /** The options a caller supplies; a missing one keeps its default. */
  datatype Options = Options(implicitlyImportReact: Option<bool>, passElementProps: Option<bool>)

  /** `Object.assign({}, DEFAULT_CONFIGURATION, options)`. */
  function Configure(o: Options): (c: Config)
    ensures o.implicitlyImportReact.None? ==> c.implicitlyImportReact
    ensures o.passElementProps.None? ==> !c.passElementProps
    ensures o.implicitlyImportReact.Some? ==> c.implicitlyImportReact == o.implicitlyImportReact.value
    ensures o.passElementProps.Some? ==> c.passElementProps == o.passElementProps.value
  {
    Config(
      match o.implicitlyImportReact case Some(b) => b case None => true,
      match o.passElementProps case Some(b) => b case None => false)
  }

  /**
   * What the front matter yields: the body, the `imports` attribute (name to
   * module, in key order) if it is present, and the remaining attributes in
   * key order.
   */
  datatype FrontMatter<V> = FrontMatter(body: string, importMap: Option<seq<(string, string)>>, statics: seq<(string, V)>)

  // ---------------------------------------------------------------------------
  // Imports
  // ---------------------------------------------------------------------------

  /** How many imports come before the front matter's own. */
  function ImplicitCount(config: Config): nat
  {
    if config.implicitlyImportReact then 2 else 0
  }

  function ImportCount(importMap: Option<seq<(string, string)>>): nat
  {
    match importMap case Some(m) => |m| case None => 0
  }

  /**
   * The import list: React then PropTypes unless implicit imports are turned
   * off, then one import per front-matter entry, in key order.
   */
  function ImportList(config: Config, importMap: Option<seq<(string, string)>>, formatImport: (string, string) -> string)
    : (r: seq<string>)
    ensures |r| == ImplicitCount(config) + ImportCount(importMap)
    ensures config.implicitlyImportReact ==>
      r[0] == formatImport("React", "react") && r[1] == formatImport("PropTypes", "prop-types")
    ensures importMap.Some? ==> forall k :: 0 <= k < |importMap.value| ==>
      r[ImplicitCount(config) + k] == formatImport(importMap.value[k].0, importMap.value[k].1)
  {
    (if config.implicitlyImportReact then [formatImport("React", "react"), formatImport("PropTypes", "prop-types")] else [])
    + match importMap
      case Some(m) => seq(|m|, k requires 0 <= k < |m| => formatImport(m[k].0, m[k].1))
      case None => []
  }

  /** The `push` calls that build the import list. */
  method CollectImports(config: Config, importMap: Option<seq<(string, string)>>, formatImport: (string, string) -> string)
    returns (imports: seq<string>)
    ensures imports == ImportList(config, importMap, formatImport)
  {
    imports := [];
    if config.implicitlyImportReact {
      imports := imports + [formatImport("React", "react")];
      imports := imports + [formatImport("PropTypes", "prop-types")];
    }
    if importMap.Some? {
      var entries := importMap.value;
      var n := |imports|;
      var i := 0;
      while i < |entries|
        invariant 0 <= i <= |entries|
        invariant |imports| == n + i
        invariant n == ImplicitCount(config)
        invariant config.implicitlyImportReact ==>
          imports[0] == formatImport("React", "react") && imports[1] == formatImport("PropTypes", "prop-types")
        invariant forall k :: 0 <= k < i ==> imports[n + k] == formatImport(entries[k].0, entries[k].1)
      {
        imports := imports + [formatImport(entries[i].0, entries[i].1)];
        i := i + 1;
      }
    }
  }

  // ---------------------------------------------------------------------------
  // Statics
  // ---------------------------------------------------------------------------

  /** `propTypes` is always reserved; `defaultProps` is too when element props are passed. */
  function Reserved(passElementProps: bool): (r: seq<string>)
    ensures "propTypes" in r
    ensures "defaultProps" in r <==> passElementProps
    ensures forall k :: 0 <= k < |r| ==> r[k] == "propTypes" || r[k] == "defaultProps"
  {
    if passElementProps then ["propTypes", "defaultProps"] else ["propTypes"]
  }

  /** The message of the error thrown for a reserved name. */
  function ReservedError(name: string): string
  {
    "You can't supply a `" + name + "` static! That name is reserved."
  }

  /** The first attribute at or after `i` whose name is reserved. */
  function FirstReserved<V>(statics: seq<(string, V)>, reserved: seq<string>, i: nat): (k: Option<nat>)
    requires i <= |statics|
    ensures k.Some? ==> i <= k.value < |statics| && statics[k.value].0 in reserved
    ensures k.Some? ==> forall j :: i <= j < k.value ==> statics[j].0 !in reserved
    ensures k.None? ==> forall j :: i <= j < |statics| ==> statics[j].0 !in reserved
    decreases |statics| - i
  {
    if i == |statics| then None
    else if statics[i].0 in reserved then Some(i)
    else FirstReserved(statics, reserved, i + 1)
  }

  /**
   * `Object.keys(staticAttributes).map(...)`: the formatted statics, or the
   * error for the first reserved name in key order.
   */
  function FormatStatics<V>(statics: seq<(string, V)>, passElementProps: bool, formatStatic: (string, V) -> string)
    : (r: Result<seq<string>>)
    ensures r.Ok? <==> forall j :: 0 <= j < |statics| ==> statics[j].0 !in Reserved(passElementProps)
    ensures r.Ok? ==> |r.value| == |statics|
    ensures r.Ok? ==> forall j :: 0 <= j < |statics| ==> r.value[j] == formatStatic(statics[j].0, statics[j].1)
    ensures r.Err? ==> exists k :: (&& 0 <= k < |statics|
                                    && statics[k].0 in Reserved(passElementProps)
                                    && r.message == ReservedError(statics[k].0)
                                    && (forall j :: 0 <= j < k ==> statics[j].0 !in Reserved(passElementProps)))
  {
    match FirstReserved(statics, Reserved(passElementProps), 0)
    case Some(k) => Err(ReservedError(statics[k].0))
    case None => Ok(seq(|statics|, j requires 0 <= j < |statics| => formatStatic(statics[j].0, statics[j].1)))
  }

  /** A `propTypes` attribute is always refused, with this message. */
  lemma PropTypesRefused<V>(v: V, passElementProps: bool, formatStatic: (string, V) -> string)
    ensures FormatStatics([("propTypes", v)], passElementProps, formatStatic) == Err(ReservedError("propTypes"))
  {
    var statics := [("propTypes", v)];
    var reserved := Reserved(passElementProps);
    assert statics[0].0 in reserved;
    assert FirstReserved(statics, reserved, 0) == Some(0);
  }

  /** A `defaultProps` attribute is refused exactly when element props are passed. */
  lemma DefaultPropsRefusedIff<V>(v: V, passElementProps: bool, formatStatic: (string, V) -> string)
    ensures FormatStatics([("defaultProps", v)], passElementProps, formatStatic).Err? <==> passElementProps
  {
  }

  /** Names other than the two reserved ones are always accepted. */
  lemma OtherNamesAccepted<V>(statics: seq<(string, V)>, passElementProps: bool, formatStatic: (string, V) -> string)
    requires forall j :: 0 <= j < |statics| ==> statics[j].0 != "propTypes" && statics[j].0 != "defaultProps"
    ensures FormatStatics(statics, passElementProps, formatStatic).Ok?
  {
  }

  /** `array.join('')`. */
  function Concat(parts: seq<string>): (r: string)
    ensures |parts| == 1 ==> r == parts[0]
    decreases |parts|
  {
    if parts == [] then "" else parts[0] + Concat(parts[1..])
  }
}
