/**
 * The tag-walking scanner: one left-to-right pass over the four fragment
 * kinds `<name`, `</name`, `/>` and `>`, keeping a stack of tag records whose
 * state moves open -> content -> closing. A callback chooses each fragment's
 * replacement and may rename the record it is handed.
 */
module ProcessHtml {

  import opened Strings
  import opened Markup

  // ---------------------------------------------------------------------------
  // The fragment pattern `(<\/?([a-z][a-z0-9\.\-]*)|\/>|>)`, case-insensitive
  // ---------------------------------------------------------------------------

  predicate IsAsciiLetter(c: char)
  {
    'a' <= c <= 'z' || 'A' <= c <= 'Z'
  }

  predicate IsNameChar(c: char)
  {
    IsAsciiLetter(c) || '0' <= c <= '9' || c == '.' || c == '-'
  }

  /** The end of the longest run of name characters starting at `i`. */
  function NameEnd(s: string, i: nat): (j: nat)
    requires i <= |s|
    ensures i <= j <= |s|
    ensures j == |s| || !IsNameChar(s[j])
    decreases |s| - i
  {
    if i < |s| && IsNameChar(s[i]) then NameEnd(s, i + 1) else i
  }

  /** Everything the name run passes over is a name character. */
  lemma {:induction false} NameRun(s: string, i: nat)
    requires i <= |s|
    ensures forall k :: i <= k < NameEnd(s, i) ==> IsNameChar(s[k])
    decreases |s| - i
  {
    if i < |s| && IsNameChar(s[i]) {
      NameRun(s, i + 1);
    }
  }

  datatype Kind = OpenStart | CloseStart | VoidClose | TagEnd

  /** A match of the pattern: its kind, its tag name (empty for `/>` and `>`) and where it ends. */
  datatype Fragment = Fragment(kind: Kind, name: string, end: nat)

  /** The match that starts at `i`, if one does. */
  function FragmentAt(s: string, i: nat): (f: Option<Fragment>)
    requires i < |s|
    ensures f.Some? ==> i < f.value.end <= |s|
  {
    if s[i] == '<' && i + 1 < |s| && IsAsciiLetter(s[i + 1]) then
      var e := NameEnd(s, i + 1);
      Some(Fragment(OpenStart, s[i + 1..e], e))
    else if s[i] == '<' && i + 2 < |s| && s[i + 1] == '/' && IsAsciiLetter(s[i + 2]) then
      var e := NameEnd(s, i + 2);
      Some(Fragment(CloseStart, s[i + 2..e], e))
    else if s[i] == '/' && i + 1 < |s| && s[i + 1] == '>' then Some(Fragment(VoidClose, "", i + 2))
    else if s[i] == '>' then Some(Fragment(TagEnd, "", i + 1))
    else None
  }

  /**
   * What each kind of match looks like: `<` or `</` followed by a name that
   * starts with a letter and runs as far as name characters go, `/>`, or `>`.
   */
  lemma FragmentShape(s: string, i: nat)
    requires i < |s|
    ensures var f := FragmentAt(s, i);
      && (f.Some? && f.value.kind == OpenStart ==>
            s[i] == '<' && f.value.name == s[i + 1..f.value.end] && |f.value.name| > 0
            && IsAsciiLetter(f.value.name[0]) && (f.value.end == |s| || !IsNameChar(s[f.value.end])))
      && (f.Some? && f.value.kind == CloseStart ==>
            f.value.end > i + 2 && s[i..i + 2] == "</" && f.value.name == s[i + 2..f.value.end]
            && IsAsciiLetter(f.value.name[0]) && (f.value.end == |s| || !IsNameChar(s[f.value.end])))
      && (f.Some? && f.value.kind == VoidClose ==> s[i..f.value.end] == "/>")
      && (f.Some? && f.value.kind == TagEnd ==> s[i..f.value.end] == ">")
      && (f.None? <==> (s[i] != '>' && !(s[i] == '<' && i + 1 < |s| && IsAsciiLetter(s[i + 1]))
            && !(s[i] == '<' && i + 2 < |s| && s[i + 1] == '/' && IsAsciiLetter(s[i + 2]))
            && !(s[i] == '/' && i + 1 < |s| && s[i + 1] == '>')))
  {
  }

  /** The input cut into unmatched text and matched fragments. */
  datatype Token = Gap(text: string) | Frag(kind: Kind, name: string, text: string)

  /** The tokens of `s[last..]`, searching for the next match from `i`. */
  function TokensFrom(s: string, i: nat, last: nat): (ts: seq<Token>)
    requires last <= i <= |s|
    ensures |ts| >= 1 && ts[0].Gap?
    decreases |s| - i
  {
    if i == |s| then [Gap(s[last..])]
    else match FragmentAt(s, i)
      case None => TokensFrom(s, i + 1, last)
      case Some(f) => [Gap(s[last..i]), Frag(f.kind, f.name, s[i..f.end])] + TokensFrom(s, f.end, f.end)
  }

  function Tokens(s: string): seq<Token>
  {
    TokensFrom(s, 0, 0)
  }

  /** No match at `i`: the search moves on without changing the tokens. */
  lemma NoMatchAt(html: string, i: nat, last: nat)
    requires last <= i < |html| && FragmentAt(html, i).None?
    ensures TokensFrom(html, i, last) == TokensFrom(html, i + 1, last)
  {
  }

  /** At a match, the tokens are the gap before it, the match, and the tokens after it. */
  lemma TokensAtMatch(s: string, i: nat, last: nat)
    requires last <= i < |s| && FragmentAt(s, i).Some?
    ensures var f := FragmentAt(s, i).value;
      TokensFrom(s, i, last) == [Gap(s[last..i]), Frag(f.kind, f.name, s[i..f.end])] + TokensFrom(s, f.end, f.end)
  {
  }

  /** The text the tokens cover. */
  function Flatten(ts: seq<Token>): string
    decreases |ts|
  {
    if ts == [] then "" else ts[0].text + Flatten(ts[1..])
  }

  lemma {:induction false} FlattenConcat(a: seq<Token>, b: seq<Token>)
    ensures Flatten(a + b) == Flatten(a) + Flatten(b)
    decreases |a|
  {
    if a == [] {
      assert a + b == b;
    } else {
      assert (a + b)[0] == a[0] && (a + b)[1..] == a[1..] + b;
      FlattenConcat(a[1..], b);
    }
  }

  /** The tokens spell the input back: the scanner drops and invents no text. */
  lemma {:induction false} TokensCover(s: string, i: nat, last: nat)
    requires last <= i <= |s|
    ensures Flatten(TokensFrom(s, i, last)) == s[last..]
    decreases |s| - i
  {
    if i == |s| {
      assert Flatten([Gap(s[last..])]) == s[last..] + Flatten([]);
    } else if FragmentAt(s, i).None? {
      NoMatchAt(s, i, last);
      TokensCover(s, i + 1, last);
    } else {
      var f := FragmentAt(s, i).value;
      TokensCover(s, f.end, f.end);
      CoverAtMatch(s, i, last);
    }
  }

  /** At a match, the gap and the match spell out the text up to its end. */
  lemma CoverAtMatch(s: string, i: nat, last: nat)
    requires last <= i < |s| && FragmentAt(s, i).Some?
    requires var f := FragmentAt(s, i).value;
      Flatten(TokensFrom(s, f.end, f.end)) == s[f.end..]
    ensures Flatten(TokensFrom(s, i, last)) == s[last..]
  {
    var f := FragmentAt(s, i).value;
    var head := [Gap(s[last..i]), Frag(f.kind, f.name, s[i..f.end])];
    TokensAtMatch(s, i, last);
    FlattenConcat(head, TokensFrom(s, f.end, f.end));
    assert Flatten(head) == s[last..i] + (s[i..f.end] + Flatten([])) by {
      assert head[1..] == [head[1]] && head[1..][1..] == [];
    }
    assert s[last..] == s[last..i] + s[i..f.end] + s[f.end..];
  }

  /**
   * Matches are leftmost: the first token is the text up to the next match,
   * and no position inside it starts a fragment.
   */
  lemma {:induction false} LeftmostMatch(s: string, i: nat, last: nat)
    requires last <= i <= |s|
    requires forall k :: last <= k < i ==> FragmentAt(s, k).None?
    ensures var g := TokensFrom(s, i, last)[0].text;
      && last + |g| <= |s| && g == s[last..last + |g|]
      && (forall k :: last <= k < last + |g| ==> FragmentAt(s, k).None?)
      && (|TokensFrom(s, i, last)| > 1 ==> last + |g| < |s| && FragmentAt(s, last + |g|).Some?)
    decreases |s| - i
  {
    if i < |s| && FragmentAt(s, i).None? {
      NoMatchAt(s, i, last);
      LeftmostMatch(s, i + 1, last);
    } else if i < |s| {
      TokensAtMatch(s, i, last);
    }
  }

  // ---------------------------------------------------------------------------
  // The tag stack
  // ---------------------------------------------------------------------------

  /** `state` of a record; `Unset` is the throwaway `{}` handed over when the stack is empty. */
  datatype TagState = Unset | Open | Content | Closing

  datatype TagRecord = TagRecord(tagName: string, state: TagState)

  /** The empty record `{}`: its missing name reads as `"undefined"`. */
  const Throwaway := TagRecord("undefined", Unset)

  /** `tagFragment` as the callback sees it: the match with the tag name removed. */
  function FragmentText(k: Kind): string
  {
    match k
    case OpenStart => "<"
    case CloseStart => "</"
    case VoidClose => "/>"
    case TagEnd => ">"
  }

  /** What the switch leaves: the stack, the record handed to the callback, and whether to pop. */
  datatype Advanced = Advanced(tree: seq<TagRecord>, tag: TagRecord, pop: bool)

  function Top(tree: seq<TagRecord>): TagRecord
  {
    if tree == [] then Throwaway else tree[|tree| - 1]
  }

  /** Replace the top record (the stack is unchanged when empty: `{}` is discarded). */
  function SetTop(tree: seq<TagRecord>, r: TagRecord): (t: seq<TagRecord>)
    ensures |t| == |tree|
    ensures tree != [] ==> t[..|tree| - 1] == tree[..|tree| - 1] && t[|tree| - 1] == r
  {
    if tree == [] then [] else tree[..|tree| - 1] + [r]
  }

  function Advance(tree: seq<TagRecord>, kind: Kind, name: string): (a: Advanced)
    ensures kind == OpenStart ==> a.tree == tree + [TagRecord(name, Open)] && a.tag == TagRecord(name, Open) && !a.pop
    ensures kind != OpenStart ==> (|a.tree| == |tree|
      && (tree != [] ==> a.tag == Top(a.tree)) && (tree == [] ==> a.tag.tagName == "undefined"))
  {
    match kind
    case OpenStart =>
      var thisTag := TagRecord(name, Open);
      Advanced(tree + [thisTag], thisTag, false)
    case VoidClose =>
      Advanced(tree, Top(tree), true)
    case TagEnd =>
      var last := Top(tree);
      var last' := if last.state == Open then last.(state := Content) else last;
      Advanced(SetTop(tree, last'), last', last'.state == Closing)
    case CloseStart =>
      var last := Top(tree).(state := Closing);
      Advanced(SetTop(tree, last), last, false)
  }

  // ---------------------------------------------------------------------------
  // The callback and one step of the walk
  // ---------------------------------------------------------------------------

  /** The arguments of the callback: the match, `tagFragment`, the record and the stack. */
  datatype Event = Event(matched: string, fragment: string, tag: TagRecord, tree: seq<TagRecord>)

  /**
   * What the callback does: its new private state (for instance a
   * dictionary it fills), the replacement text, and the record's name as it
   * leaves it.
   */
  datatype Reply<S> = Reply(state: S, replacement: string, tagName: string)

  type Callback<!S> = (S, Event) -> Reply<S>

  datatype Outcome<S> = Outcome(state: S, out: string, tree: seq<TagRecord>)

  /** One token: copy unmatched text, or run the switch, the callback and the deferred pop. */
  function Step<S>(cb: Callback<S>, o: Outcome<S>, t: Token): Outcome<S>
  {
    match t
    case Gap(text) => o.(out := o.out + text)
    case Frag(kind, name, matched) =>
      var a := Advance(o.tree, kind, name);
      var reply := cb(o.state, Event(matched, FragmentText(kind), a.tag, a.tree));
      var renamed := SetTop(a.tree, a.tag.(tagName := reply.tagName));
      var tree := if a.pop && renamed != [] then renamed[..|renamed| - 1] else renamed;
      Outcome(reply.state, o.out + reply.replacement, tree)
  }

  /**
   * The stack discipline of one step: `<name` pushes one open record; any
   * other fragment changes only the top record and pops at most that one;
   * `</` marks the top closing; `/>` always pops; and with an empty stack a
   * stray fragment leaves it empty.
   */
  lemma StepStack<S>(cb: Callback<S>, o: Outcome<S>, t: Token)
    ensures var r := Step(cb, o, t);
      && (t.Gap? ==> r.tree == o.tree && r.state == o.state)
      && (t.Frag? && t.kind == OpenStart ==>
            |r.tree| == |o.tree| + 1 && r.tree[..|o.tree|] == o.tree && r.tree[|o.tree|].state == Open)
      && (t.Frag? && t.kind != OpenStart ==>
            (|r.tree| == |o.tree| || |r.tree| == |o.tree| - 1)
            && (o.tree != [] ==> r.tree[..|o.tree| - 1] == o.tree[..|o.tree| - 1]))
      && (t.Frag? && t.kind == CloseStart ==>
            |r.tree| == |o.tree| && (o.tree != [] ==> r.tree[|o.tree| - 1].state == Closing))
      && (t.Frag? && t.kind == VoidClose && o.tree != [] ==> |r.tree| == |o.tree| - 1)
      && (t.Frag? && o.tree == [] && t.kind != OpenStart ==> r.tree == [])
  {
    if t.Frag? {
      var a := Advance(o.tree, t.kind, t.name);
      if t.kind == OpenStart {
        assert a.tree[..|o.tree|] == o.tree;
      }
    }
  }

  function Walk<S>(cb: Callback<S>, o: Outcome<S>, ts: seq<Token>): Outcome<S>
    decreases |ts|
  {
    if ts == [] then o else Walk(cb, Step(cb, o, ts[0]), ts[1..])
  }

  /**
   * The same walk read position by position, the way the search runs: no
   * match at `i` moves on, a match copies the gap before it and takes one step.
   */
  function ScanFrom<S>(cb: Callback<S>, o: Outcome<S>, html: string, i: nat, last: nat): Outcome<S>
    requires last <= i <= |html|
    decreases |html| - i
  {
    if i == |html| then o.(out := o.out + html[last..])
    else match FragmentAt(html, i)
      case None => ScanFrom(cb, o, html, i + 1, last)
      case Some(f) =>
        ScanFrom(cb, Step(cb, o.(out := o.out + html[last..i]), Frag(f.kind, f.name, html[i..f.end])),
                 html, f.end, f.end)
  }

  /** No match at `i`: the scan moves on by one character. */
  lemma ScanNoMatch<S>(cb: Callback<S>, o: Outcome<S>, html: string, i: nat, last: nat)
    requires last <= i < |html| && FragmentAt(html, i).None?
    ensures ScanFrom(cb, o, html, i, last) == ScanFrom(cb, o, html, i + 1, last)
  {
  }

  /** A match at `i`: the scan copies the gap, takes one step and resumes after the match. */
  lemma ScanAtMatch<S>(cb: Callback<S>, o: Outcome<S>, html: string, i: nat, last: nat)
    requires last <= i < |html| && FragmentAt(html, i).Some?
    ensures var f := FragmentAt(html, i).value;
      ScanFrom(cb, o, html, i, last)
      == ScanFrom(cb, Step(cb, o.(out := o.out + html[last..i]), Frag(f.kind, f.name, html[i..f.end])), html, f.end, f.end)
  {
  }

  /** Scanning position by position is walking the tokens. */
  lemma {:induction false} ScanIsWalk<S>(cb: Callback<S>, o: Outcome<S>, html: string, i: nat, last: nat)
    requires last <= i <= |html|
    ensures ScanFrom(cb, o, html, i, last) == Walk(cb, o, TokensFrom(html, i, last))
    decreases |html| - i
  {
    if i == |html| {
      WalkAtEnd(cb, o, html, last);
    } else if FragmentAt(html, i).None? {
      NoMatchAt(html, i, last);
      ScanNoMatch(cb, o, html, i, last);
      ScanIsWalk(cb, o, html, i + 1, last);
    } else {
      var f := FragmentAt(html, i).value;
      var o1 := Step(cb, o.(out := o.out + html[last..i]), Frag(f.kind, f.name, html[i..f.end]));
      WalkAtMatch(cb, o, html, i, last);
      ScanAtMatch(cb, o, html, i, last);
      ScanIsWalk(cb, o1, html, f.end, f.end);
    }
  }

  /** The scanner's result: the rewritten text and the callback's final state. */
  function Process<S>(html: string, cb: Callback<S>, init: S): Outcome<S>
  {
    ScanFrom(cb, Outcome(init, "", []), html, 0, 0)
  }

  /** The scanner's result is the walk over the tokens of the input. */
  lemma ProcessWalksTokens<S>(html: string, cb: Callback<S>, init: S)
    ensures Process(html, cb, init) == Walk(cb, Outcome(init, "", []), Tokens(html))
  {
    ScanIsWalk(cb, Outcome(init, "", []), html, 0, 0);
  }

  // ---------------------------------------------------------------------------
  // The scanner as the source runs it
  // ---------------------------------------------------------------------------

  /**
   * `html.replace(pattern, (match, tagFragment, tagName) => ...)` with the
   * `tree` stack: each match is replaced by what the callback returns.
   */
  method ProcessHtml<S>(html: string, cb: Callback<S>, init: S) returns (out: string, state: S)
    ensures out == Process(html, cb, init).out && state == Process(html, cb, init).state
  {
    var tree: seq<TagRecord> := [];
    out, state := "", init;
    var i: nat, last: nat := 0, 0;
    while i < |html|
      invariant last <= i <= |html|
      invariant ScanFrom(cb, Outcome(state, out, tree), html, i, last) == Process(html, cb, init)
      decreases |html| - i
    {
      tree, state, out, i, last := SearchStep(cb, html, i, last, tree, state, out);
    }
    out := out + html[last..];
  }

  /** One step of the search: move past a position without a match, or take the match there. */
  method SearchStep<S>(cb: Callback<S>, html: string, i0: nat, last0: nat, tree0: seq<TagRecord>, state0: S, out0: string)
    returns (tree: seq<TagRecord>, state: S, out: string, i: nat, last: nat)
    requires last0 <= i0 < |html|
    ensures i0 < i && last <= i <= |html|
    ensures ScanFrom(cb, Outcome(state, out, tree), html, i, last) == ScanFrom(cb, Outcome(state0, out0, tree0), html, i0, last0)
  {
    if FragmentAt(html, i0).None? {
      ScanNoMatch(cb, Outcome(state0, out0, tree0), html, i0, last0);
      tree, state, out, i, last := tree0, state0, out0, i0 + 1, last0;
    } else {
      var f := FragmentAt(html, i0).value;
      tree, state, out := TakeMatch(cb, html, i0, last0, tree0, state0, out0);
      i, last := f.end, f.end;
    }
  }

  /** One match: copy the gap before it, hand it to the callback and append the replacement. */
  method TakeMatch<S>(cb: Callback<S>, html: string, i: nat, last: nat, tree0: seq<TagRecord>, state0: S, out0: string)
    returns (tree: seq<TagRecord>, state: S, out: string)
    requires last <= i < |html| && FragmentAt(html, i).Some?
    ensures var e := FragmentAt(html, i).value.end;
      ScanFrom(cb, Outcome(state, out, tree), html, e, e) == ScanFrom(cb, Outcome(state0, out0, tree0), html, i, last)
  {
    var f := FragmentAt(html, i).value;
    ScanAtMatch(cb, Outcome(state0, out0, tree0), html, i, last);
    out := out0 + html[last..i];
    var replacement;
    tree, state, replacement := Handle(cb, tree0, state0, out, f.kind, f.name, html[i..f.end]);
    out := out + replacement;
  }

  /** At a match, the walk copies the gap before it and then takes one step. */
  lemma WalkAtMatch<S>(cb: Callback<S>, o: Outcome<S>, html: string, i: nat, last: nat)
    requires last <= i < |html| && FragmentAt(html, i).Some?
    ensures var f := FragmentAt(html, i).value;
      Walk(cb, o, TokensFrom(html, i, last))
      == Walk(cb, Step(cb, o.(out := o.out + html[last..i]), Frag(f.kind, f.name, html[i..f.end])),
              TokensFrom(html, f.end, f.end))
  {
    var f := FragmentAt(html, i).value;
    var t := Frag(f.kind, f.name, html[i..f.end]);
    var rest := TokensFrom(html, f.end, f.end);
    TokensAtMatch(html, i, last);
    assert [Gap(html[last..i]), t] + rest == [Gap(html[last..i])] + ([t] + rest);
    WalkCons(cb, o, Gap(html[last..i]), [t] + rest);
    WalkCons(cb, o.(out := o.out + html[last..i]), t, rest);
  }

  /** Walking a token and then the rest. */
  lemma WalkCons<S>(cb: Callback<S>, o: Outcome<S>, t: Token, rest: seq<Token>)
    ensures Walk(cb, o, [t] + rest) == Walk(cb, Step(cb, o, t), rest)
  {
    assert ([t] + rest)[0] == t && ([t] + rest)[1..] == rest;
  }

  /** With no match left, the walk copies the rest of the text. */
  lemma WalkAtEnd<S>(cb: Callback<S>, o: Outcome<S>, html: string, last: nat)
    requires last <= |html|
    ensures Walk(cb, o, TokensFrom(html, |html|, last)) == o.(out := o.out + html[last..])
  {
    assert TokensFrom(html, |html|, last) == [Gap(html[last..])];
  }

  /** One matched fragment: the `switch`, the callback and the deferred pop. */
  method Handle<S>(cb: Callback<S>, tree0: seq<TagRecord>, state0: S, ghost out: string, kind: Kind, name: string, matched: string)
    returns (tree: seq<TagRecord>, state: S, replacement: string)
    ensures Step(cb, Outcome(state0, out, tree0), Frag(kind, name, matched)) == Outcome(state, out + replacement, tree)
  {
    tree := tree0;
    var lastTag := Top(tree);
    var thisTag: Option<TagRecord> := None;
    var shouldPop := false;
    match kind {
      case OpenStart =>
        thisTag := Some(TagRecord(name, Open));
        tree := tree + [thisTag.value];
      case VoidClose =>
        shouldPop := true;
      case TagEnd =>
        if lastTag.state == Open {
          lastTag := lastTag.(state := Content);
        }
        if lastTag.state == Closing {
          shouldPop := true;
        }
        tree := SetTop(tree, lastTag);
      case CloseStart =>
        lastTag := lastTag.(state := Closing);
        tree := SetTop(tree, lastTag);
    }
    var tag := if thisTag.Some? then thisTag.value else lastTag;
    var reply := cb(state0, Event(matched, FragmentText(kind), tag, tree));
    tree := SetTop(tree, tag.(tagName := reply.tagName));
    if shouldPop && tree != [] {
      tree := tree[..|tree| - 1];
    }
    state, replacement := reply.state, reply.replacement;
  }

  // ---------------------------------------------------------------------------
  // Properties
  // ---------------------------------------------------------------------------

  lemma {:induction false} WalkConcat<S>(cb: Callback<S>, o: Outcome<S>, a: seq<Token>, b: seq<Token>)
    ensures Walk(cb, o, a + b) == Walk(cb, Walk(cb, o, a), b)
    decreases |a|
  {
    if a == [] {
      assert a + b == b;
    } else {
      assert (a + b)[0] == a[0] && (a + b)[1..] == a[1..] + b;
      WalkConcat(cb, Step(cb, o, a[0]), a[1..], b);
    }
  }

  /** `>` moves the top record from open to content, and pops a closing one. */
  lemma TagEndTransition<S>(cb: Callback<S>, o: Outcome<S>, matched: string)
    requires o.tree != []
    ensures var r := Step(cb, o, Frag(TagEnd, "", matched));
      && (o.tree[|o.tree| - 1].state == Open ==> |r.tree| == |o.tree| && r.tree[|o.tree| - 1].state == Content)
      && (o.tree[|o.tree| - 1].state == Closing ==> r.tree == o.tree[..|o.tree| - 1])
      && (o.tree[|o.tree| - 1].state in {Content, Unset} ==>
            |r.tree| == |o.tree| && r.tree[|o.tree| - 1].state == o.tree[|o.tree| - 1].state)
  {
    var a := Advance(o.tree, TagEnd, "");
    assert |a.tree| == |o.tree|;
  }

  /** The callback gets the newly pushed record for `<`, otherwise the top record before any pop. */
  lemma CallbackSees(tree: seq<TagRecord>, kind: Kind, name: string)
    ensures var a := Advance(tree, kind, name);
      && (kind == OpenStart ==> a.tag == TagRecord(name, Open) && a.tree[|a.tree| - 1] == a.tag)
      && (kind != OpenStart && tree != [] ==> a.tag == a.tree[|a.tree| - 1])
      && (kind == VoidClose ==> a.tag == Top(tree))
  {
  }

  /** A callback that returns each match as it is and keeps names leaves the text unchanged. */
  lemma {:induction false} IdentityCallbackKeepsText<S>(cb: Callback<S>, o: Outcome<S>, ts: seq<Token>)
    requires forall st, e :: cb(st, e).replacement == e.matched
    ensures Walk(cb, o, ts).out == o.out + Flatten(ts)
    decreases |ts|
  {
    if ts != [] {
      var o1 := Step(cb, o, ts[0]);
      assert o1.out == o.out + ts[0].text;
      IdentityCallbackKeepsText(cb, o1, ts[1..]);
    }
  }

  /** Hence `processHtml(html, (match) => match)` returns `html`. */
  lemma ProcessIdentity<S>(html: string, cb: Callback<S>, init: S)
    requires forall st, e :: cb(st, e).replacement == e.matched
    ensures Process(html, cb, init).out == html
  {
    ProcessWalksTokens(html, cb, init);
    IdentityCallbackKeepsText(cb, Outcome(init, "", []), Tokens(html));
    TokensCover(html, 0, 0);
  }

  // ---------------------------------------------------------------------------
  // The scanner looks only forward
  // ---------------------------------------------------------------------------

  /** Where a name ends, read in a text whose tail is `t`: the same name, shifted. */
  lemma NameEndShift(s: string, d: nat, t: string, i: nat, j: nat)
    requires TailAt(s, d, t) && i <= |t| && j == d + i
    ensures NameEnd(s, j) == d + NameEnd(t, i)
    ensures s[j..d + NameEnd(t, i)] == t[i..NameEnd(t, i)]
  {
    var k := NameEnd(t, i);
    NameRun(t, i);
    NameRun(s, j);
    forall m | j <= m < d + k ensures IsNameChar(s[m]) {
      assert s[m] == t[m - d];
    }
    if d + k < |s| {
      assert s[d + k] == t[k];
    }
    TailSlice(s, d, t, i, k, j, d + k);
  }

  /** `<name` read in the tail: the same name, ending `d` further on. */
  lemma OpenStartShift(s: string, d: nat, t: string, i: nat, j: nat)
    requires TailAt(s, d, t) && i + 1 < |t| && j == d + i && t[i] == '<' && IsAsciiLetter(t[i + 1])
    ensures var e := NameEnd(t, i + 1);
      && FragmentAt(t, i) == Some(Fragment(OpenStart, t[i + 1..e], e))
      && FragmentAt(s, j) == Some(Fragment(OpenStart, t[i + 1..e], d + e))
  {
    assert s[j] == t[i] && s[j + 1] == t[i + 1];
    NameEndShift(s, d, t, i + 1, j + 1);
  }

  /** `</name` read in the tail: the same name, ending `d` further on. */
  lemma CloseStartShift(s: string, d: nat, t: string, i: nat, j: nat)
    requires TailAt(s, d, t) && i + 2 < |t| && j == d + i && t[i] == '<' && t[i + 1] == '/' && IsAsciiLetter(t[i + 2])
    ensures var e := NameEnd(t, i + 2);
      && FragmentAt(t, i) == Some(Fragment(CloseStart, t[i + 2..e], e))
      && FragmentAt(s, j) == Some(Fragment(CloseStart, t[i + 2..e], d + e))
  {
    assert s[j] == t[i] && s[j + 1] == t[i + 1] && s[j + 2] == t[i + 2];
    NameEndShift(s, d, t, i + 2, j + 2);
  }

  /** The match at a position does not depend on the text before it. */
  lemma FragmentAtShift(s: string, d: nat, t: string, i: nat, j: nat)
    requires TailAt(s, d, t) && i < |t| && j == d + i
    ensures var g := FragmentAt(s, j); var f := FragmentAt(t, i);
      && g.None? == f.None?
      && (f.Some? ==> g.value.kind == f.value.kind && g.value.name == f.value.name && g.value.end == d + f.value.end)
  {
    assert s[j] == t[i];
    if t[i] == '<' && i + 1 < |t| && IsAsciiLetter(t[i + 1]) {
      OpenStartShift(s, d, t, i, j);
    } else if t[i] == '<' && i + 2 < |t| && t[i + 1] == '/' && IsAsciiLetter(t[i + 2]) {
      CloseStartShift(s, d, t, i, j);
    } else if i + 1 < |t| {
      assert s[j + 1] == t[i + 1];
    }
  }

  /**
   * Hence the tokens of a tail are the same whatever comes before it
   * (`j` and `lastJ` are `i` and `last` moved `d` further on).
   */
  lemma {:induction false} TokensShift(s: string, d: nat, t: string, i: nat, last: nat, j: nat, lastJ: nat)
    requires TailAt(s, d, t) && last <= i <= |t| && j == d + i && lastJ == d + last
    ensures TokensFrom(s, j, lastJ) == TokensFrom(t, i, last)
    decreases |t| - i, 1
  {
    if i == |t| {
      EndShift(s, d, t, last, j, lastJ);
    } else if FragmentAt(t, i).None? {
      NoMatchShift(s, d, t, i, last, j, lastJ);
    } else {
      MatchShift(s, d, t, i, last, j, lastJ);
    }
  }

  /** At the end of both texts, the last gap is the same text. */
  lemma EndShift(s: string, d: nat, t: string, last: nat, j: nat, lastJ: nat)
    requires TailAt(s, d, t) && last <= |t| && j == d + |t| && lastJ == d + last
    ensures TokensFrom(s, j, lastJ) == TokensFrom(t, |t|, last)
  {
    TailSlice(s, d, t, last, |t|, lastJ, j);
    assert s[lastJ..] == s[lastJ..j] && t[last..] == t[last..|t|];
  }

  /** Without a match, both searches move on by one character. */
  lemma {:induction false} NoMatchShift(s: string, d: nat, t: string, i: nat, last: nat, j: nat, lastJ: nat)
    requires TailAt(s, d, t) && last <= i < |t| && j == d + i && lastJ == d + last && FragmentAt(t, i).None?
    ensures TokensFrom(s, j, lastJ) == TokensFrom(t, i, last)
    decreases |t| - i, 0
  {
    TokensShift(s, d, t, i + 1, last, j + 1, lastJ);
    FragmentAtShift(s, d, t, i, j);
    NoMatchAt(s, j, lastJ);
  }

  /** At a match, both searches take the same match and resume after it. */
  lemma {:induction false} MatchShift(s: string, d: nat, t: string, i: nat, last: nat, j: nat, lastJ: nat)
    requires TailAt(s, d, t) && last <= i < |t| && j == d + i && lastJ == d + last && FragmentAt(t, i).Some?
    ensures TokensFrom(s, j, lastJ) == TokensFrom(t, i, last)
    decreases |t| - i, 0
  {
    var f := FragmentAt(t, i).value;
    TokensShift(s, d, t, f.end, f.end, d + f.end, d + f.end);
    FragmentAtShift(s, d, t, i, j);
    var g := FragmentAt(s, j).value;
    TokensAtMatch(s, j, lastJ);
    TokensAtMatch(t, i, last);
    TailSlice(s, d, t, last, i, lastJ, j);
    TailSlice(s, d, t, i, f.end, j, g.end);
  }

  /** Positions without a match add nothing to the tokens. */
  lemma {:induction false} NoMatchesBetween(s: string, i: nat, j: nat, last: nat)
    requires last <= i <= j <= |s|
    requires forall k :: i <= k < j ==> FragmentAt(s, k).None?
    ensures TokensFrom(s, i, last) == TokensFrom(s, j, last)
    decreases j - i
  {
    if i < j {
      NoMatchAt(s, i, last);
      NoMatchesBetween(s, i + 1, j, last);
    }
  }

  /** No match starts inside text without angle brackets, unless it ends in `/` before a `>`. */
  lemma NoMatchInGap(g: string, t: string)
    requires NoAngle(g)
    requires t != [] && t[0] == '>' && g != [] ==> g[|g| - 1] != '/'
    ensures forall k :: 0 <= k < |g| ==> FragmentAt(g + t, k).None?
  {
    var s := g + t;
    forall k | 0 <= k < |g| ensures FragmentAt(s, k).None? {
      assert s[k] == g[k];
      if k + 1 < |g| {
        assert s[k + 1] == g[k + 1];
      } else if k + 1 < |s| {
        assert s[k + 1] == t[0];
      }
    }
  }

  /** Where the current gap started does not change what comes after it. */
  lemma {:induction false} GapStartIrrelevant(s: string, i: nat, last: nat, last': nat)
    requires last <= i <= |s| && last' <= i
    ensures TokensFrom(s, i, last)[1..] == TokensFrom(s, i, last')[1..]
    decreases |s| - i
  {
    if i < |s| && FragmentAt(s, i).None? {
      GapStartIrrelevant(s, i + 1, last, last');
    }
  }

  /** A match right after some text: that text, then what the match starts. */
  lemma GapThenMatch(g: string, t: string)
    requires t != [] && FragmentAt(t, 0).Some?
    ensures TokensFrom(g + t, |g|, 0) == [Gap(g)] + Tokens(t)[1..]
  {
    var s := g + t;
    var ts := TokensFrom(s, |g|, 0);
    ConcatTail(g, t);
    TokensShift(s, |g|, t, 0, 0, |g|, |g|);
    GapStartIrrelevant(s, |g|, 0, |g|);
    FragmentAtShift(s, |g|, t, 0, |g|);
    TokensAtMatch(s, |g|, 0);
    assert s[0..|g|] == g;
    assert ts == [ts[0]] + ts[1..];
  }

  /**
   * Text without angle brackets followed by a match (or by nothing) is a
   * single gap, provided it does not end in `/` right before a `>`.
   */
  lemma GapBefore(g: string, t: string)
    requires NoAngle(g)
    requires t == [] || FragmentAt(t, 0).Some?
    requires t != [] && t[0] == '>' && g != [] ==> g[|g| - 1] != '/'
    ensures Tokens(g + t) == [Gap(g)] + Tokens(t)[1..]
  {
    var s := g + t;
    NoMatchInGap(g, t);
    NoMatchesBetween(s, 0, |g|, 0);
    if t == [] {
      assert s == g && s[0..] == g;
    } else {
      GapThenMatch(g, t);
    }
  }

  /** A text that starts with a match: an empty gap, the match, then the tokens of the rest. */
  lemma MatchFirst(x: string, u: string, kind: Kind, name: string)
    requires x != [] && FragmentAt(x + u, 0) == Some(Fragment(kind, name, |x|))
    ensures Tokens(x + u) == [Gap(""), Frag(kind, name, x)] + Tokens(u)
  {
    TokensAtMatch(x + u, 0, 0);
    assert (x + u)[0..|x|] == x;
    ConcatTail(x, u);
    TokensShift(x + u, |x|, u, 0, 0, |x|, |x|);
  }

  // ---------------------------------------------------------------------------
  // Well-nested input
  // ---------------------------------------------------------------------------

  /** A tag name the pattern reads whole: a letter, then name characters. */
  predicate TagName(name: string)
  {
    |name| > 0 && IsAsciiLetter(name[0]) && forall k :: 0 <= k < |name| ==> IsNameChar(name[k])
  }

  /**
   * Attribute text that neither lengthens the name before it nor turns the
   * `>` after it into `/>`.
   */
  predicate AttributeText(attrs: string)
  {
    attrs == [] || (!IsNameChar(attrs[0]) && attrs[|attrs| - 1] != '/')
  }

  /** `<name` with a character after it that cannot continue the name. */
  lemma OpenAt(name: string, u: string)
    requires TagName(name) && (u == [] || !IsNameChar(u[0]))
    ensures FragmentAt("<" + name + u, 0) == Some(Fragment(OpenStart, name, |name| + 1))
  {
    var s := "<" + name + u;
    NameRun(s, 1);
    assert s[1] == name[0];
    forall j | 1 <= j < |name| + 1 ensures IsNameChar(s[j]) {
      assert s[j] == name[j - 1];
    }
    if |name| + 1 < |s| {
      assert s[|name| + 1] == u[0];
    }
    assert s[1..|name| + 1] == name;
  }

  /** `</name` with a character after it that cannot continue the name. */
  lemma CloseAt(name: string, u: string)
    requires TagName(name) && (u == [] || !IsNameChar(u[0]))
    ensures FragmentAt("</" + name + u, 0) == Some(Fragment(CloseStart, name, |name| + 2))
  {
    var s := "</" + name + u;
    NameRun(s, 2);
    assert s[2] == name[0];
    forall j | 2 <= j < |name| + 2 ensures IsNameChar(s[j]) {
      assert s[j] == name[j - 2];
    }
    if |name| + 2 < |s| {
      assert s[|name| + 2] == u[0];
    }
    assert s[2..|name| + 2] == name;
  }

  /** The tokens the scanner should find in well-nested markup. */
  function ForestTokens(f: Forest): seq<Token>
    decreases f, 2
  {
    [Gap(f.lead)] + ItemsTokens(f.items)
  }

  function ItemsTokens(items: seq<Item>): seq<Token>
    decreases items, 1
  {
    if items == [] then []
    else ElementTokens(items[0].element) + ([Gap(items[0].trail)] + ItemsTokens(items[1..]))
  }

  /** `<name`, the attributes, `/>`; or `<name`, the attributes, `>`, the body, `</name`, nothing, `>`. */
  function ElementTokens(e: Element): seq<Token>
    decreases e, 0
  {
    match e
    case SelfClosed(name, attrs) =>
      [Frag(OpenStart, name, "<" + name), Gap(attrs), Frag(VoidClose, "", "/>")]
    case Paired(name, attrs, body) =>
      [Frag(OpenStart, name, "<" + name), Gap(attrs), Frag(TagEnd, "", ">")]
      + (ForestTokens(body) + CloseTokens(name))
  }

  function CloseTokens(name: string): seq<Token>
  {
    [Frag(CloseStart, name, "</" + name), Gap(""), Frag(TagEnd, "", ">")]
  }

  /** The scanner cuts well-nested markup exactly into the tokens of its elements. */
  lemma MarkupTokens(f: Forest)
    requires FormedForest(f, TagName, AttributeText)
    ensures Tokens(Html(f)) == ForestTokens(f)
  {
    ForestScan(f, "");
    assert Html(f) + "" == Html(f);
    assert Tokens("") == [Gap("")];
  }

  /** Markup followed by a text that starts with a match. */
  lemma {:induction false} ForestScan(f: Forest, t: string)
    requires FormedForest(f, TagName, AttributeText)
    requires t == [] || (t[0] == '<' && FragmentAt(t, 0).Some?)
    ensures Tokens(Html(f) + t) == ForestTokens(f) + Tokens(t)[1..]
    decreases f, 2
  {
    var x := ItemsHtml(f.items) + t;
    ItemsScan(f.items, t);
    Assoc(f.lead, ItemsHtml(f.items), t);
    GapBefore(f.lead, x);
    Assoc([Gap(f.lead)], ItemsTokens(f.items), Tokens(t)[1..]);
  }

  lemma {:induction false} ItemsScan(items: seq<Item>, t: string)
    requires FormedItems(items, TagName, AttributeText)
    requires t == [] || (t[0] == '<' && FragmentAt(t, 0).Some?)
    ensures var x := ItemsHtml(items) + t; x == [] || (x[0] == '<' && FragmentAt(x, 0).Some?)
    ensures Tokens(ItemsHtml(items) + t)[1..] == ItemsTokens(items) + Tokens(t)[1..]
    decreases items, 1
  {
    if items == [] {
      assert ItemsHtml(items) + t == t;
    } else {
      var e := items[0].element;
      var trail := items[0].trail;
      var y := ItemsHtml(items[1..]) + t;
      ItemsScan(items[1..], t);
      ElementScan(e, trail + y);
      GapBefore(trail, y);
      Assoc(trail, ItemsHtml(items[1..]), t);
      Assoc(ElementHtml(e), trail + ItemsHtml(items[1..]), t);
      var rest := ItemsTokens(items[1..]);
      var after := Tokens(t)[1..];
      Assoc([Gap(trail)], rest, after);
      Assoc(ElementTokens(e), [Gap(trail)] + rest, after);
    }
  }

  lemma {:induction false} ElementScan(e: Element, u: string)
    requires FormedElement(e, TagName, AttributeText)
    ensures var x := ElementHtml(e) + u; x[0] == '<' && FragmentAt(x, 0).Some?
    ensures Tokens(ElementHtml(e) + u)[1..] == ElementTokens(e) + Tokens(u)
    decreases e, 0
  {
    match e
    case SelfClosed(name, attrs) =>
      SelfClosedScan(name, attrs, u);
    case Paired(name, attrs, body) =>
      PairedScan(name, attrs, body, u);
  }

  lemma SelfClosedScan(name: string, attrs: string, u: string)
    requires TagName(name) && AttributeText(attrs) && NoAngle(attrs)
    ensures var x := ElementHtml(SelfClosed(name, attrs)) + u; x[0] == '<' && FragmentAt(x, 0).Some?
    ensures Tokens(ElementHtml(SelfClosed(name, attrs)) + u)[1..] == ElementTokens(SelfClosed(name, attrs)) + Tokens(u)
  {
    var x := ElementHtml(SelfClosed(name, attrs)) + u;
    var v := attrs + ("/>" + u);
    Assoc("<" + name, attrs + "/>", u);
    Assoc(attrs, "/>", u);
    assert x == "<" + name + v;
    assert v[0] == if attrs == [] then '/' else attrs[0];
    OpenThen(name, v);
    AttrsThenVoidClose(attrs, u);
    var tail := [Gap(attrs), Frag(VoidClose, "", "/>")] + Tokens(u);
    assert [Frag(OpenStart, name, "<" + name)] + tail == ElementTokens(SelfClosed(name, attrs)) + Tokens(u);
  }

  /** `<name` and a text that cannot continue the name: the match, then the tokens of that text. */
  lemma OpenThen(name: string, v: string)
    requires TagName(name) && (v == [] || !IsNameChar(v[0]))
    ensures var x := "<" + name + v; x[0] == '<' && FragmentAt(x, 0).Some?
    ensures Tokens("<" + name + v)[1..] == [Frag(OpenStart, name, "<" + name)] + Tokens(v)
  {
    var open := Frag(OpenStart, name, "<" + name);
    OpenAt(name, v);
    MatchFirst("<" + name, v, OpenStart, name);
    assert Tokens("<" + name + v) == [Gap("")] + ([open] + Tokens(v));
  }

  /** The attributes, then `/>`: a gap and the closing mark. */
  lemma AttrsThenVoidClose(attrs: string, u: string)
    requires AttributeText(attrs) && NoAngle(attrs)
    ensures Tokens(attrs + ("/>" + u)) == [Gap(attrs), Frag(VoidClose, "", "/>")] + Tokens(u)
  {
    assert FragmentAt("/>" + u, 0) == Some(Fragment(VoidClose, "", 2));
    GapBefore(attrs, "/>" + u);
    MatchFirst("/>", u, VoidClose, "");
  }

  /** The attributes, then `>`: a gap and the end mark. */
  lemma AttrsThenTagEnd(attrs: string, inner: string)
    requires AttributeText(attrs) && NoAngle(attrs)
    ensures Tokens(attrs + (">" + inner)) == [Gap(attrs)] + ([Frag(TagEnd, "", ">")] + Tokens(inner))
  {
    assert FragmentAt(">" + inner, 0) == Some(Fragment(TagEnd, "", 1));
    GapBefore(attrs, ">" + inner);
    MatchFirst(">", inner, TagEnd, "");
  }

  /** `</name>` and what follows it. */
  lemma CloseScan(name: string, u: string)
    requires TagName(name)
    ensures var w := "</" + name + ">" + u; w[0] == '<' && FragmentAt(w, 0).Some?
    ensures Tokens("</" + name + ">" + u)[1..] == CloseTokens(name) + Tokens(u)
  {
    CloseAt(name, ">" + u);
    Assoc("</" + name, ">", u);
    MatchFirst("</" + name, ">" + u, CloseStart, name);
    assert FragmentAt(">" + u, 0) == Some(Fragment(TagEnd, "", 1));
    MatchFirst(">", u, TagEnd, "");
  }

  lemma {:induction false} PairedScan(name: string, attrs: string, body: Forest, u: string)
    requires FormedElement(Paired(name, attrs, body), TagName, AttributeText)
    ensures var x := ElementHtml(Paired(name, attrs, body)) + u; x[0] == '<' && FragmentAt(x, 0).Some?
    ensures Tokens(ElementHtml(Paired(name, attrs, body)) + u)[1..]
      == ElementTokens(Paired(name, attrs, body)) + Tokens(u)
    decreases body, 4
  {
    var w := "</" + name + ">" + u;
    var inner := Html(body) + w;
    var v := attrs + (">" + inner);
    PairedHtml(name, attrs, body, u);
    assert v[0] == if attrs == [] then '>' else attrs[0];
    OpenThen(name, v);
    PairedBodyScan(name, attrs, body, u);
    PairedTokens(name, attrs, ForestTokens(body), Tokens(u));
  }

  /** What follows `<name` in a paired element: the attributes, `>`, the body and the closing tag. */
  lemma {:induction false} PairedBodyScan(name: string, attrs: string, body: Forest, u: string)
    requires FormedElement(Paired(name, attrs, body), TagName, AttributeText)
    ensures Tokens(attrs + (">" + (Html(body) + ("</" + name + ">" + u))))
      == [Gap(attrs)] + ([Frag(TagEnd, "", ">")] + (ForestTokens(body) + (CloseTokens(name) + Tokens(u))))
    decreases body, 3
  {
    var w := "</" + name + ">" + u;
    var inner := Html(body) + w;
    CloseScan(name, u);
    ForestScan(body, w);
    assert Tokens(inner) == ForestTokens(body) + (CloseTokens(name) + Tokens(u));
    AttrsThenTagEnd(attrs, inner);
  }

  /** Where `u` goes in a paired element's text. */
  lemma PairedHtml(name: string, attrs: string, body: Forest, u: string)
    ensures ElementHtml(Paired(name, attrs, body)) + u
      == "<" + name + (attrs + (">" + (Html(body) + ("</" + name + ">" + u))))
  {
    var close := "</" + name + ">";
    Assoc("<" + name, attrs + (">" + (Html(body) + close)), u);
    Assoc(attrs, ">" + (Html(body) + close), u);
    Assoc(">", Html(body) + close, u);
    Assoc(Html(body), close, u);
  }

  /** The regrouping of a paired element's tokens. */
  lemma PairedTokens(name: string, attrs: string, kids: seq<Token>, after: seq<Token>)
    ensures [Frag(OpenStart, name, "<" + name)] + ([Gap(attrs)] + ([Frag(TagEnd, "", ">")] + (kids + (CloseTokens(name) + after))))
      == ([Frag(OpenStart, name, "<" + name), Gap(attrs), Frag(TagEnd, "", ">")] + (kids + CloseTokens(name))) + after
  {
  }

  // ---------------------------------------------------------------------------
  // The stack over well-nested input
  // ---------------------------------------------------------------------------

  /** Well-nested tokens leave the stack exactly as they found it. */
  lemma {:induction false} ForestKeepsStack<S>(cb: Callback<S>, o: Outcome<S>, f: Forest)
    ensures Walk(cb, o, ForestTokens(f)).tree == o.tree
    decreases f, 2
  {
    WalkCons(cb, o, Gap(f.lead), ItemsTokens(f.items));
    StepStack(cb, o, Gap(f.lead));
    ItemsKeepStack(cb, Step(cb, o, Gap(f.lead)), f.items);
  }

  lemma {:induction false} ItemsKeepStack<S>(cb: Callback<S>, o: Outcome<S>, items: seq<Item>)
    ensures Walk(cb, o, ItemsTokens(items)).tree == o.tree
    decreases items, 1
  {
    if items != [] {
      var e := items[0].element;
      var trail := Gap(items[0].trail);
      WalkConcat(cb, o, ElementTokens(e), [trail] + ItemsTokens(items[1..]));
      ElementKeepsStack(cb, o, e);
      var o1 := Walk(cb, o, ElementTokens(e));
      WalkCons(cb, o1, trail, ItemsTokens(items[1..]));
      StepStack(cb, o1, trail);
      ItemsKeepStack(cb, Step(cb, o1, trail), items[1..]);
    }
  }

  lemma {:induction false} ElementKeepsStack<S>(cb: Callback<S>, o: Outcome<S>, e: Element)
    ensures Walk(cb, o, ElementTokens(e)).tree == o.tree
    decreases e, 0
  {
    var open := [Frag(OpenStart, e.name, "<" + e.name), Gap(e.attrs)];
    var o1 := OpenPushes(cb, o, e.name, e.attrs);
    match e
    case SelfClosed(name, attrs) =>
      var close := [Frag(VoidClose, "", "/>")];
      assert ElementTokens(e) == open + close;
      WalkConcat(cb, o, open, close);
      VoidClosePops(cb, o1, o.tree);
    case Paired(name, attrs, body) =>
      var end := [Frag(TagEnd, "", ">")];
      var kids := ForestTokens(body);
      var close := CloseTokens(name);
      assert ElementTokens(e) == open + (end + (kids + close));
      WalkConcat(cb, o, open, end + (kids + close));
      WalkConcat(cb, o1, end, kids + close);
      var o2 := Step(cb, o1, end[0]);
      assert Walk(cb, o1, end) == o2;
      TagEndTransition(cb, o1, ">");
      StepStack(cb, o1, end[0]);
      assert |o2.tree| == |o1.tree| && o2.tree[..|o.tree|] == o.tree;
      WalkConcat(cb, o2, kids, close);
      ForestKeepsStack(cb, o2, body);
      CloseTagPops(cb, Walk(cb, o2, kids), name, o.tree);
  }

  /**
   * On well-nested markup the scanner ends with the stack it started with,
   * empty: every `<name` is popped by its own `/>` or `</name>`.
   */
  lemma WellNestedEmptiesStack<S>(f: Forest, cb: Callback<S>, init: S)
    requires FormedForest(f, TagName, AttributeText)
    ensures Process(Html(f), cb, init).tree == []
  {
    MarkupTokens(f);
    ProcessWalksTokens(Html(f), cb, init);
    ForestKeepsStack(cb, Outcome(init, "", []), f);
  }

  /** `<name` and the attribute text push one open record on the stack. */
  lemma OpenPushes<S>(cb: Callback<S>, o: Outcome<S>, name: string, attrs: string) returns (o1: Outcome<S>)
    ensures o1 == Walk(cb, o, [Frag(OpenStart, name, "<" + name), Gap(attrs)])
    ensures |o1.tree| == |o.tree| + 1 && o1.tree[..|o.tree|] == o.tree && o1.tree[|o.tree|].state == Open
  {
    var open := [Frag(OpenStart, name, "<" + name), Gap(attrs)];
    var o0 := Step(cb, o, open[0]);
    o1 := Step(cb, o0, open[1]);
    StepStack(cb, o, open[0]);
    StepStack(cb, o0, open[1]);
    assert open[1..] == [open[1]] && open[1..][1..] == [];
    assert Walk(cb, o, open) == Walk(cb, o0, open[1..]);
    assert Walk(cb, o0, open[1..]) == Walk(cb, o1, []);
  }

  /** `/>` pops the record that the opening fragment pushed. */
  lemma VoidClosePops<S>(cb: Callback<S>, o1: Outcome<S>, below: seq<TagRecord>)
    requires |o1.tree| == |below| + 1 && o1.tree[..|below|] == below
    ensures Walk(cb, o1, [Frag(VoidClose, "", "/>")]).tree == below
  {
    var close := [Frag(VoidClose, "", "/>")];
    var r := Step(cb, o1, close[0]);
    StepStack(cb, o1, close[0]);
    assert Walk(cb, o1, close) == r;
  }

  /** `</name`, the empty gap and `>` mark the record closing and pop it. */
  lemma CloseTagPops<S>(cb: Callback<S>, o3: Outcome<S>, name: string, below: seq<TagRecord>)
    requires |o3.tree| == |below| + 1 && o3.tree[..|below|] == below
    ensures Walk(cb, o3, CloseTokens(name)).tree == below
  {
    var close := CloseTokens(name);
    var o4 := Step(cb, o3, close[0]);
    StepStack(cb, o3, close[0]);
    assert |o4.tree| == |o3.tree| && o4.tree[..|below|] == below && o4.tree[|below|].state == Closing;
    var o5 := Step(cb, o4, close[1]);
    StepStack(cb, o4, close[1]);
    var o6 := Step(cb, o5, close[2]);
    TagEndTransition(cb, o5, ">");
    assert close[1..] == [close[1], close[2]] && close[1..][1..] == [close[2]] && close[1..][1..][1..] == [];
    assert Walk(cb, o3, close) == Walk(cb, o4, close[1..]);
    assert Walk(cb, o4, close[1..]) == Walk(cb, o5, close[1..][1..]);
    assert Walk(cb, o5, close[1..][1..]) == Walk(cb, o6, []);
  }
}
