/**
 * The webpack loader of `src/index.js`: protect style objects and
 * assignment expressions, render, rename tag names that would not survive
 * the HTML-to-JSX conversion, convert, restore the protected text, and put
 * the original tag names back, passing element props to known DOM tags.
 *
 * The renderer, the HTML-to-JSX converter, the hash and the formatters are
 * outside the model and are passed in as functions; the void-element list
 * and the DOM whitelist are given sets.
 */
module Loader {

  import opened Strings
  import opened ReplacementCache
  import opened ModuleHeader
  import opened ProcessHtml
  import HtmlToJsx
  import Convert

  /** The indentation handed to the HTML-to-JSX step. */
  const Indentation := "          "

  // ---------------------------------------------------------------------------
  // First pass: rename tag names that need it, expand non-void `/>`
  // ---------------------------------------------------------------------------

  /**
   * A name containing `.` or an upper-case letter is hashed. Tag names come
   * from the scanner's ASCII pattern, so `toLowerCase` changes a name exactly
   * when it has a letter `A`-`Z`.
   */
  predicate NeedsHash(name: string)
  {
    '.' in name || exists k :: 0 <= k < |name| && 'A' <= name[k] <= 'Z'
  }

  /** `tagCache[name] || name`: the cached original, unless missing or empty. */
  function Original(tagCache: map<string, string>, name: string): (r: string)
    ensures name !in tagCache ==> r == name
    ensures name in tagCache && tagCache[name] != "" ==> r == tagCache[name]
  {
    if name in tagCache && tagCache[name] != "" then tagCache[name] else name
  }

  /** The name the first pass gives a tag. */
  function Renamed(lowercaseHash: string -> string, name: string): string
  {
    if NeedsHash(name) then lowercaseHash(name) else name
  }

  /** The first pass's callback; its private state is `tagCache`. */
  function RenameReply(lowercaseHash: string -> string, voidElements: set<string>, tagCache: map<string, string>, e: Event)
    : Reply<map<string, string>>
  {
    var name := e.tag.tagName;
    if e.fragment == "<" then
      if NeedsHash(name) then
        var nameHash := lowercaseHash(name);
        Reply(tagCache[nameHash := name], "<" + nameHash, nameHash)
      else Reply(tagCache, "<" + name, name)
    else if e.fragment == "/>" then
      Reply(tagCache, if Original(tagCache, name) !in voidElements then "></" + name + ">" else e.matched, name)
    else if e.fragment == "</" then Reply(tagCache, "</" + name, name)
    else Reply(tagCache, e.matched, name)
  }

  function FirstPass(lowercaseHash: string -> string, voidElements: set<string>): Callback<map<string, string>>
  {
    (tagCache: map<string, string>, e: Event) => RenameReply(lowercaseHash, voidElements, tagCache, e)
  }

  /** An opening fragment is re-emitted with the renamed name, and the record takes that name. */
  lemma OpeningRenamed(lowercaseHash: string -> string, voidElements: set<string>, tagCache: map<string, string>,
                       matched: string, name: string, tree: seq<TagRecord>)
    ensures var r := RenameReply(lowercaseHash, voidElements, tagCache, Event(matched, "<", TagRecord(name, Open), tree));
      && r.replacement == "<" + Renamed(lowercaseHash, name)
      && r.tagName == Renamed(lowercaseHash, name)
      && (NeedsHash(name) ==> r.state == tagCache[lowercaseHash(name) := name])
      && (!NeedsHash(name) ==> r.state == tagCache)
  {
  }

  /** `/>` closes a non-void element explicitly and stays on a void one. */
  lemma SelfClosingExpansion(lowercaseHash: string -> string, voidElements: set<string>, tagCache: map<string, string>,
                             tag: TagRecord, tree: seq<TagRecord>)
    ensures var r := RenameReply(lowercaseHash, voidElements, tagCache, Event("/>", "/>", tag, tree));
      && (Original(tagCache, tag.tagName) !in voidElements ==> r.replacement == "></" + tag.tagName + ">")
      && (Original(tagCache, tag.tagName) in voidElements ==> r.replacement == "/>")
      && r.state == tagCache
  {
  }

  /** A closing fragment takes the name of the record on top of the stack. */
  lemma ClosingUsesTop(lowercaseHash: string -> string, voidElements: set<string>, tagCache: map<string, string>,
                       matched: string, name: string, tree: seq<TagRecord>)
    ensures var e := Event(matched, "</", Advance(tree, CloseStart, name).tag, tree);
      RenameReply(lowercaseHash, voidElements, tagCache, e).replacement == "</" + Top(tree).tagName
  {
  }

  /** The tag cache after the first pass over `ts`. */
  function Renames(lowercaseHash: string -> string, tagCache: map<string, string>, ts: seq<Token>): map<string, string>
    decreases |ts|
  {
    if ts == [] then tagCache
    else
      var t := ts[0];
      var next := if t.Frag? && t.kind == OpenStart && NeedsHash(t.name) then tagCache[lowercaseHash(t.name) := t.name]
                  else tagCache;
      Renames(lowercaseHash, next, ts[1..])
  }

  /** The first pass's private state is exactly the renames of the opening tags it met. */
  lemma {:induction false} FirstPassState(lowercaseHash: string -> string, voidElements: set<string>,
                                          o: Outcome<map<string, string>>, ts: seq<Token>)
    ensures Walk(FirstPass(lowercaseHash, voidElements), o, ts).state == Renames(lowercaseHash, o.state, ts)
    decreases |ts|
  {
    if ts != [] {
      var cb := FirstPass(lowercaseHash, voidElements);
      var t := ts[0];
      var o1 := Step(cb, o, t);
      if t.Frag? {
        var a := Advance(o.tree, t.kind, t.name);
        if t.kind == OpenStart {
          assert a.tag == TagRecord(t.name, Open);
        } else {
          assert FragmentText(t.kind) != "<";
        }
      }
      FirstPassState(lowercaseHash, voidElements, o1, ts[1..]);
    }
  }

  /** The hash tells names apart (a SHA-256 collision is not considered). */
  ghost predicate Injective(lowercaseHash: string -> string)
  {
    forall a, b :: lowercaseHash(a) == lowercaseHash(b) ==> a == b
  }

  /** An entry stays as it is: later writes to its key write the same name. */
  lemma {:induction false} RenamesKeep(lowercaseHash: string -> string, tagCache: map<string, string>, ts: seq<Token>, name: string)
    requires Injective(lowercaseHash)
    requires lowercaseHash(name) in tagCache && tagCache[lowercaseHash(name)] == name
    ensures lowercaseHash(name) in Renames(lowercaseHash, tagCache, ts)
    ensures Renames(lowercaseHash, tagCache, ts)[lowercaseHash(name)] == name
    decreases |ts|
  {
    if ts != [] {
      var t := ts[0];
      var next := if t.Frag? && t.kind == OpenStart && NeedsHash(t.name) then tagCache[lowercaseHash(t.name) := t.name]
                  else tagCache;
      if t.Frag? && t.kind == OpenStart && NeedsHash(t.name) && lowercaseHash(t.name) == lowercaseHash(name) {
        assert t.name == name;
      }
      RenamesKeep(lowercaseHash, next, ts[1..], name);
    }
  }

  /** Every hashed opening tag's original name is in the cache at the end. */
  lemma {:induction false} RenamesRecord(lowercaseHash: string -> string, tagCache: map<string, string>, ts: seq<Token>, k: nat)
    requires Injective(lowercaseHash)
    requires k < |ts| && ts[k].Frag? && ts[k].kind == OpenStart && NeedsHash(ts[k].name)
    ensures lowercaseHash(ts[k].name) in Renames(lowercaseHash, tagCache, ts)
    ensures Renames(lowercaseHash, tagCache, ts)[lowercaseHash(ts[k].name)] == ts[k].name
    decreases k
  {
    var t := ts[0];
    var next := if t.Frag? && t.kind == OpenStart && NeedsHash(t.name) then tagCache[lowercaseHash(t.name) := t.name]
                else tagCache;
    if k == 0 {
      RenamesKeep(lowercaseHash, next, ts[1..], t.name);
    } else {
      assert ts[1..][k - 1] == ts[k];
      RenamesRecord(lowercaseHash, next, ts[1..], k - 1);
    }
  }

  /** After the first pass, the cache maps the hash of every renamed tag back to its name. */
  lemma FirstPassRemembers(html: string, lowercaseHash: string -> string, voidElements: set<string>, k: nat)
    requires Injective(lowercaseHash)
    requires k < |Tokens(html)| && Tokens(html)[k].Frag? && Tokens(html)[k].kind == OpenStart
    requires NeedsHash(Tokens(html)[k].name)
    ensures var tagCache := Process(html, FirstPass(lowercaseHash, voidElements), map[]).state;
      var name := Tokens(html)[k].name;
      lowercaseHash(name) in tagCache && tagCache[lowercaseHash(name)] == name
  {
    ProcessWalksTokens(html, FirstPass(lowercaseHash, voidElements), map[]);
    FirstPassState(lowercaseHash, voidElements, Outcome(map[], "", []), Tokens(html));
    RenamesRecord(lowercaseHash, map[], Tokens(html), k);
  }

  // ---------------------------------------------------------------------------
  // Second pass: restore the names, pass element props to DOM tags
  // ---------------------------------------------------------------------------

  function Spread(name: string): string
  {
    " {...elementProps['" + name + "']}"
  }

  /** The second pass's callback; it keeps no state and renames nothing. */
  function RestoreReply(tagCache: map<string, string>, passElementProps: bool, reactDom: set<string>, e: Event): Reply<()>
  {
    var corrected := Original(tagCache, e.tag.tagName);
    var replacement :=
      if e.fragment == "<" then
        if passElementProps && corrected in reactDom then "<" + corrected + Spread(corrected) else "<" + corrected
      else if e.fragment == "/>" || e.fragment == ">" then e.matched
      else if e.fragment == "</" then "</" + corrected
      else e.matched;
    Reply((), replacement, e.tag.tagName)
  }

  function SecondPass(tagCache: map<string, string>, passElementProps: bool, reactDom: set<string>): Callback<()>
  {
    (u: (), e: Event) => RestoreReply(tagCache, passElementProps, reactDom, e)
  }

  /**
   * Rename then restore is the identity on tag names, provided the cache
   * holds every renamed name and no unrenamed name is a key of the cache.
   */
  lemma RestoreUndoesRename(lowercaseHash: string -> string, tagCache: map<string, string>, name: string)
    requires name != ""
    requires NeedsHash(name) ==> lowercaseHash(name) in tagCache && tagCache[lowercaseHash(name)] == name
    requires !NeedsHash(name) ==> name !in tagCache
    ensures Original(tagCache, Renamed(lowercaseHash, name)) == name
  {
  }

  /** An opening tag gets its restored name, and the spread exactly for whitelisted names. */
  lemma OpeningRestored(tagCache: map<string, string>, passElementProps: bool, reactDom: set<string>,
                        matched: string, tag: TagRecord, tree: seq<TagRecord>)
    ensures var corrected := Original(tagCache, tag.tagName);
      var r := RestoreReply(tagCache, passElementProps, reactDom, Event(matched, "<", tag, tree)).replacement;
      && r[..1 + |corrected|] == "<" + corrected
      && (|r| > 1 + |corrected| <==> passElementProps && corrected in reactDom)
      && (|r| > 1 + |corrected| ==> r[1 + |corrected|..] == Spread(corrected))
  {
    var corrected := Original(tagCache, tag.tagName);
    var r := RestoreReply(tagCache, passElementProps, reactDom, Event(matched, "<", tag, tree)).replacement;
    if passElementProps && corrected in reactDom {
      assert r == ("<" + corrected) + Spread(corrected);
    }
  }

  /** With the identity hash names and an injective hash, a renamed tag comes back. */
  lemma RenamedTagRestored(lowercaseHash: string -> string, tagCache: map<string, string>, reactDom: set<string>,
                           matched: string, name: string, tree: seq<TagRecord>)
    requires name != ""
    requires NeedsHash(name) ==> lowercaseHash(name) in tagCache && tagCache[lowercaseHash(name)] == name
    requires !NeedsHash(name) ==> name !in tagCache
    ensures var e := Event(matched, "<", TagRecord(Renamed(lowercaseHash, name), Open), tree);
      RestoreReply(tagCache, false, reactDom, e).replacement == "<" + name
  {
    RestoreUndoesRename(lowercaseHash, tagCache, name);
  }

  /** `replace(/\s\s\{/, ' {')` applies at `k`. */
  predicate DoubleSpaceBraceAt(s: string, k: nat)
  {
    k + 3 <= |s| && IsSpace(s[k]) && IsSpace(s[k + 1]) && s[k + 2] == '{'
  }

  function FirstDoubleSpaceBrace(s: string, i: nat): (k: Option<nat>)
    requires i <= |s|
    ensures k.Some? ==> i <= k.value < |s| && DoubleSpaceBraceAt(s, k.value)
    ensures k.Some? ==> forall j :: i <= j < k.value ==> !DoubleSpaceBraceAt(s, j)
    ensures k.None? ==> forall j :: i <= j < |s| ==> !DoubleSpaceBraceAt(s, j)
    decreases |s| - i
  {
    if i == |s| then None
    else if DoubleSpaceBraceAt(s, i) then Some(i)
    else FirstDoubleSpaceBrace(s, i + 1)
  }

  /** The first two whitespace characters before a `{` become one space. */
  function CollapseSpreadSpace(s: string): (r: string)
    ensures FirstDoubleSpaceBrace(s, 0).None? ==> r == s
    ensures FirstDoubleSpaceBrace(s, 0).Some? ==>
      var k := FirstDoubleSpaceBrace(s, 0).value;
      |r| == |s| - 1 && r[..k] == s[..k] && r[k..k + 2] == " {" && r[k + 2..] == s[k + 3..]
  {
    match FirstDoubleSpaceBrace(s, 0)
    case None => s
    case Some(k) => s[..k] + " {" + s[k + 3..]
  }

  // ---------------------------------------------------------------------------
  // Cache order
  // ---------------------------------------------------------------------------

  /**
   * Two caches loaded one after the other and unloaded in the reverse order
   * give the text back (for caches whose payload is the match and holds no `$`).
   */
  lemma ReverseOrderRestores(first: CacheConfig, second: CacheConfig, s: string)
    requires forall m, g :: first.outputReplacer(m, g) == m
    requires forall m, g :: second.outputReplacer(m, g) == m
    requires Consistent(Scan(first, s))
    requires UnloadSafe(Scan(first, s), Record(EmptyTable, Scan(first, s)))
    requires Consistent(Scan(second, LoadText(first, s)))
    requires UnloadSafe(Scan(second, LoadText(first, s)), Record(EmptyTable, Scan(second, LoadText(first, s))))
    requires DollarFree(Record(EmptyTable, Scan(first, s)))
    requires DollarFree(Record(EmptyTable, Scan(second, LoadText(first, s))))
    ensures WellFormed(Record(EmptyTable, Scan(first, s)))
    ensures WellFormed(Record(EmptyTable, Scan(second, LoadText(first, s))))
    ensures var inner := LoadText(first, s);
      UnloadTextAsWritten(
        UnloadTextAsWritten(LoadText(second, inner), Record(EmptyTable, Scan(second, inner))),
        Record(EmptyTable, Scan(first, s))) == s
  {
    UnloadAfterLoadAsWritten(second, LoadText(first, s));
    UnloadAfterLoadAsWritten(first, s);
  }

  // ---------------------------------------------------------------------------
  // The whole loader
  // ---------------------------------------------------------------------------

  /** The parts of the loader that are outside the model. */
  datatype Externals<!V> = Externals(
    stylePattern: Matcher,
    assignmentPattern: Matcher,
    digest: string -> string,
    render: string -> string,
    lowercaseHash: string -> string,
    voidElements: set<string>,
    reactDom: set<string>,
    convertHtml: string -> string,
    formatImport: (string, string) -> string,
    formatStatic: (string, V) -> string,
    formatModule: (Config, string, string, string) -> string)

  function StyleCache<V>(ext: Externals<V>): CacheConfig
  {
    DefaultConfig(ext.stylePattern, ext.digest)
  }

  function AssignmentCache<V>(ext: Externals<V>): CacheConfig
  {
    CacheConfig(ext.assignmentPattern, KeepFirstGroup, KeepHash, ext.digest)
  }

  /** The JSX body the loader produces for a Markdown body. */
  function LoaderJsx<V>(ext: Externals<V>, config: Config, markdown: string): string
  {
    var styled := LoadText(StyleCache(ext), markdown);
    var styles := Record(EmptyTable, Scan(StyleCache(ext), markdown));
    var assignments := Record(EmptyTable, Scan(AssignmentCache(ext), styled));
    RecordContains(EmptyTable, Scan(StyleCache(ext), markdown));
    RecordContains(EmptyTable, Scan(AssignmentCache(ext), styled));
    var first := Process(ext.render(LoadText(AssignmentCache(ext), styled)), FirstPass(ext.lowercaseHash, ext.voidElements), map[]);
    var jsx := HtmlToJsx.HtmlToJsx(Convert.RenderOrPlaceholder(first.out), Indentation, ext.convertHtml);
    var restored := UnloadTextAsWritten(UnloadTextAsWritten(jsx, assignments), styles);
    CollapseSpreadSpace(Process(restored, SecondPass(first.state, config.passElementProps, ext.reactDom), ()).out)
  }

  /**
   * The loader: the module text, or the error for a reserved static. The
   * style cache is loaded before the assignment cache and unloaded after it.
   */
  method Load<V>(ext: Externals<V>, config: Config, source: FrontMatter<V>) returns (r: Result<string>)
    ensures r.Err? <==> exists j :: 0 <= j < |source.statics| && source.statics[j].0 in Reserved(config.passElementProps)
    ensures r.Err? ==> r.message == FormatStatics(source.statics, config.passElementProps, ext.formatStatic).message
    ensures r.Ok? ==> r.value == ext.formatModule(
      config,
      Concat(ImportList(config, source.importMap, ext.formatImport)),
      Concat(FormatStatics(source.statics, config.passElementProps, ext.formatStatic).value),
      LoaderJsx(ext, config, source.body))
  {
    var imports := CollectImports(config, source.importMap, ext.formatImport);
    var statics := FormatStatics(source.statics, config.passElementProps, ext.formatStatic);
    if statics.Err? {
      return Err(statics.message);
    }
    var styleCache := new StringReplacementCache(StyleCache(ext));
    var assignmentCache := new StringReplacementCache(AssignmentCache(ext));
    var styled := styleCache.Load(source.body);
    var sansAssignments := assignmentCache.Load(styled);
    var html, tagCache := ProcessHtml.ProcessHtml(ext.render(sansAssignments), FirstPass(ext.lowercaseHash, ext.voidElements), map[]);
    var jsx := HtmlToJsx.HtmlToJsx(Convert.RenderOrPlaceholder(html), Indentation, ext.convertHtml);
    jsx := assignmentCache.Unload(jsx);
    jsx := styleCache.Unload(jsx);
    var unit;
    jsx, unit := ProcessHtml.ProcessHtml(jsx, SecondPass(tagCache, config.passElementProps, ext.reactDom), ());
    jsx := CollapseSpreadSpace(jsx);
    r := Ok(ext.formatModule(config, Concat(imports), Concat(statics.value), jsx));
  }
}
