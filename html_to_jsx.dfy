/**
 * The HTML-to-JSX step: `prepareHtml` expands every self-closing `/>` into
 * an explicit closing tag using a stack of open tag names; the result goes
 * through the external HTML-to-JSX converter, and the converter's output is
 * re-indented and stripped of its trailing blank line.
 */
module HtmlToJsx {

  import opened Strings
  import opened Markup

  // ---------------------------------------------------------------------------
  // The pattern `(<([a-z\.]+)|\/>|<\/|>)`, case-insensitive
  // ---------------------------------------------------------------------------

  /** The characters a tag name may hold here: ASCII letters and dots. */
  predicate IsTagNameChar(c: char)
  {
    'a' <= c <= 'z' || 'A' <= c <= 'Z' || c == '.'
  }

  function TagNameEnd(s: string, i: nat): (j: nat)
    requires i <= |s|
    ensures i <= j <= |s|
    ensures j == |s| || !IsTagNameChar(s[j])
    decreases |s| - i
  {
    if i < |s| && IsTagNameChar(s[i]) then TagNameEnd(s, i + 1) else i
  }

  /** Everything the name run passes over is a name character. */
  lemma {:induction false} TagNameRun(s: string, i: nat)
    requires i <= |s|
    ensures forall k :: i <= k < TagNameEnd(s, i) ==> IsTagNameChar(s[k])
    decreases |s| - i
  {
    if i < |s| && IsTagNameChar(s[i]) {
      TagNameRun(s, i + 1);
    }
  }

  datatype Mark = Opening | SelfClosing | Closing | End

  /** A match of the pattern: which alternative, the tag name it captured and where it ends. */
  datatype Hit = Hit(mark: Mark, name: string, end: nat)

  /** The match at `i`: the alternatives are tried in the pattern's order. */
  function HitAt(s: string, i: nat): (h: Option<Hit>)
    requires i < |s|
    ensures h.Some? ==> i < h.value.end <= |s|
  {
    if s[i] == '<' && i + 1 < |s| && IsTagNameChar(s[i + 1]) then
      var e := TagNameEnd(s, i + 1);
      Some(Hit(Opening, s[i + 1..e], e))
    else if s[i] == '/' && i + 1 < |s| && s[i + 1] == '>' then Some(Hit(SelfClosing, "", i + 2))
    else if s[i] == '<' && i + 1 < |s| && s[i + 1] == '/' then Some(Hit(Closing, "", i + 2))
    else if s[i] == '>' then Some(Hit(End, "", i + 1))
    else None
  }

  /** Opening names are non-empty runs of letters and dots; `/>` is matched only where it occurs. */
  lemma HitShape(s: string, i: nat)
    requires i < |s|
    ensures var h := HitAt(s, i);
      && (h.Some? && h.value.mark == Opening ==>
            s[i] == '<' && h.value.name == s[i + 1..h.value.end] && |h.value.name| > 0
            && (forall k :: 0 <= k < |h.value.name| ==> IsTagNameChar(h.value.name[k])))
      && (h.Some? && h.value.mark == SelfClosing <==> s[i] == '/' && i + 1 < |s| && s[i + 1] == '>')
      && (h.Some? && h.value.mark == Closing ==> s[i..i + 2] == "</")
      && (h.Some? && h.value.mark == End ==> s[i] == '>')
  {
    if i + 1 < |s| {
      TagNameRun(s, i + 1);
    }
  }

  datatype Part = Plain(text: string) | Marked(mark: Mark, name: string, text: string)

  function PartsFrom(s: string, i: nat, last: nat): (ps: seq<Part>)
    requires last <= i <= |s|
    ensures |ps| >= 1
    decreases |s| - i
  {
    if i == |s| then [Plain(s[last..])]
    else match HitAt(s, i)
      case None => PartsFrom(s, i + 1, last)
      case Some(h) => [Plain(s[last..i]), Marked(h.mark, h.name, s[i..h.end])] + PartsFrom(s, h.end, h.end)
  }

  function Parts(s: string): seq<Part>
  {
    PartsFrom(s, 0, 0)
  }

  function Joined(ps: seq<Part>): string
    decreases |ps|
  {
    if ps == [] then "" else ps[0].text + Joined(ps[1..])
  }

  lemma {:induction false} JoinedConcat(a: seq<Part>, b: seq<Part>)
    ensures Joined(a + b) == Joined(a) + Joined(b)
    decreases |a|
  {
    if a == [] {
      assert a + b == b;
    } else {
      assert (a + b)[0] == a[0] && (a + b)[1..] == a[1..] + b;
      JoinedConcat(a[1..], b);
    }
  }

  /** The parts spell the input back. */
  lemma {:induction false} PartsCover(s: string, i: nat, last: nat)
    requires last <= i <= |s|
    ensures Joined(PartsFrom(s, i, last)) == s[last..]
    decreases |s| - i
  {
    if i == |s| {
      assert Joined([Plain(s[last..])]) == s[last..] + Joined([]);
    } else {
      match HitAt(s, i)
      case None =>
        PartsCover(s, i + 1, last);
      case Some(h) =>
        var head := [Plain(s[last..i]), Marked(h.mark, h.name, s[i..h.end])];
        assert PartsFrom(s, i, last) == head + PartsFrom(s, h.end, h.end);
        PartsCover(s, h.end, h.end);
        JoinedConcat(head, PartsFrom(s, h.end, h.end));
        assert Joined(head) == s[last..i] + (s[i..h.end] + Joined([])) by {
          assert head[1..] == [head[1]] && head[1..][1..] == [];
        }
        Split3(s, last, i, h.end);
        Assoc(s[last..i], s[i..h.end], s[h.end..]);
    }
  }

  // ---------------------------------------------------------------------------
  // prepareHtml
  // ---------------------------------------------------------------------------

  /** The text produced so far and the stack of open tag names. */
  datatype Prepared = Prepared(out: string, tree: seq<string>)

  /** `tree.pop()`: the last name, or `"undefined"` when the stack is empty. */
  function PopName(tree: seq<string>): string
  {
    if tree == [] then "undefined" else tree[|tree| - 1]
  }

  function Popped(tree: seq<string>): seq<string>
  {
    if tree == [] then [] else tree[..|tree| - 1]
  }

  function PrepareStep(p: Prepared, part: Part): Prepared
  {
    match part
    case Plain(t) => p.(out := p.out + t)
    case Marked(mark, name, matched) =>
      match mark
      case Opening => Prepared(p.out + matched, p.tree + [name])
      case SelfClosing => Prepared(p.out + "></" + PopName(p.tree) + ">", Popped(p.tree))
      case Closing => Prepared(p.out + matched, Popped(p.tree))
      case End => p.(out := p.out + matched)
  }

  function PrepareAll(p: Prepared, ps: seq<Part>): Prepared
    decreases |ps|
  {
    if ps == [] then p else PrepareAll(PrepareStep(p, ps[0]), ps[1..])
  }

  /** What `prepareHtml(html)` returns. */
  function Prepare(html: string): string
  {
    PrepareAll(Prepared("", []), Parts(html)).out
  }

  /** `prepareHtml`: one replace over the input with the name stack `tree`. */
  method PrepareHtml(html: string) returns (out: string)
    ensures out == Prepare(html)
  {
    var tree: seq<string> := [];
    out := "";
    var i: nat, last: nat := 0, 0;
    while i < |html|
      invariant last <= i <= |html|
      invariant PrepareAll(Prepared(out, tree), PartsFrom(html, i, last)) == PrepareAll(Prepared("", []), Parts(html))
      decreases |html| - i
    {
      var found := HitAt(html, i);
      if found.None? {
        i := i + 1;
        continue;
      }
      var h := found.value;
      var matched := html[i..h.end];
      ghost var rest := PartsFrom(html, h.end, h.end);
      assert PartsFrom(html, i, last) == [Plain(html[last..i]), Marked(h.mark, h.name, matched)] + rest;
      out := out + html[last..i];
      ghost var p1 := Prepared(out, tree);
      match h.mark {
        case Opening =>
          tree := tree + [h.name];
        case SelfClosing =>
          var name := PopName(tree);
          tree := Popped(tree);
          matched := "></" + name + ">";
        case End =>
        case Closing =>
          tree := Popped(tree);
      }
      out := out + matched;
      assert Prepared(out, tree) == PrepareStep(p1, Marked(h.mark, h.name, html[i..h.end]));
      i, last := h.end, h.end;
    }
    assert PartsFrom(html, i, last) == [Plain(html[last..])];
    out := out + html[last..];
  }

  // ---------------------------------------------------------------------------
  // Properties of prepareHtml
  // ---------------------------------------------------------------------------

  lemma {:induction false} PrepareConcat(p: Prepared, a: seq<Part>, b: seq<Part>)
    ensures PrepareAll(p, a + b) == PrepareAll(PrepareAll(p, a), b)
    decreases |a|
  {
    if a == [] {
      assert a + b == b;
    } else {
      assert (a + b)[0] == a[0] && (a + b)[1..] == a[1..] + b;
      PrepareConcat(PrepareStep(p, a[0]), a[1..], b);
    }
  }

  predicate HasSelfClosing(ps: seq<Part>)
  {
    exists i :: 0 <= i < |ps| && ps[i].Marked? && ps[i].mark == SelfClosing
  }

  /** Every part other than `/>` is emitted as it is. */
  lemma {:induction false} OnlySelfClosingChanges(p: Prepared, ps: seq<Part>)
    requires !HasSelfClosing(ps)
    ensures PrepareAll(p, ps).out == p.out + Joined(ps)
    decreases |ps|
  {
    if ps != [] {
      NoSelfClosingTail(ps);
      assert !(ps[0].Marked? && ps[0].mark == SelfClosing);
      OnlySelfClosingChanges(PrepareStep(p, ps[0]), ps[1..]);
      Assoc(p.out, ps[0].text, Joined(ps[1..]));
    }
  }

  lemma NoSelfClosingTail(ps: seq<Part>)
    requires ps != [] && !HasSelfClosing(ps)
    ensures !HasSelfClosing(ps[1..])
  {
    forall i | 0 <= i < |ps[1..]| ensures !(ps[1..][i].Marked? && ps[1..][i].mark == SelfClosing) {
      assert ps[1..][i] == ps[i + 1];
    }
  }

  /** A `/>` part comes from a `/>` in the text. */
  lemma {:induction false} SelfClosingFromSlash(s: string, i: nat, last: nat)
    requires last <= i <= |s|
    requires forall k :: 0 <= k < |s| - 1 ==> !(s[k] == '/' && s[k + 1] == '>')
    ensures !HasSelfClosing(PartsFrom(s, i, last))
    decreases |s| - i
  {
    var ps := PartsFrom(s, i, last);
    if i < |s| {
      match HitAt(s, i)
      case None =>
        SelfClosingFromSlash(s, i + 1, last);
      case Some(h) =>
        var rest := PartsFrom(s, h.end, h.end);
        SelfClosingFromSlash(s, h.end, h.end);
        assert ps == [Plain(s[last..i]), Marked(h.mark, h.name, s[i..h.end])] + rest;
        HitShape(s, i);
        forall n | 0 <= n < |ps| ensures !(ps[n].Marked? && ps[n].mark == SelfClosing) {
          if n >= 2 {
            assert ps[n] == rest[n - 2];
          }
        }
    }
  }

  /** HTML without `/>` passes through `prepareHtml` unchanged. */
  lemma PrepareWithoutSelfClosing(html: string)
    requires forall k :: 0 <= k < |html| - 1 ==> !(html[k] == '/' && html[k + 1] == '>')
    ensures Prepare(html) == html
  {
    SelfClosingFromSlash(html, 0, 0);
    OnlySelfClosingChanges(Prepared("", []), Parts(html));
    PartsCover(html, 0, 0);
  }

  // ---------------------------------------------------------------------------
  // The search looks only forward
  // ---------------------------------------------------------------------------

  /** No match at `i`: the search moves on without changing the parts. */
  lemma NoHitAt(s: string, i: nat, last: nat)
    requires last <= i < |s| && HitAt(s, i).None?
    ensures PartsFrom(s, i, last) == PartsFrom(s, i + 1, last)
  {
  }

  /** At a match, the parts are the text before it, the match, and the parts after it. */
  lemma PartsAtHit(s: string, i: nat, last: nat)
    requires last <= i < |s| && HitAt(s, i).Some?
    ensures var h := HitAt(s, i).value;
      PartsFrom(s, i, last) == [Plain(s[last..i]), Marked(h.mark, h.name, s[i..h.end])] + PartsFrom(s, h.end, h.end)
  {
  }

  /** Where a name ends, read in a text whose tail is `t`: the same name, shifted. */
  lemma TagNameEndShift(s: string, d: nat, t: string, i: nat, j: nat)
    requires TailAt(s, d, t) && i <= |t| && j == d + i
    ensures TagNameEnd(s, j) == d + TagNameEnd(t, i)
    ensures s[j..d + TagNameEnd(t, i)] == t[i..TagNameEnd(t, i)]
  {
    var k := TagNameEnd(t, i);
    TagNameRun(t, i);
    TagNameRun(s, j);
    forall m | j <= m < d + k ensures IsTagNameChar(s[m]) {
      assert s[m] == t[m - d];
    }
    if d + k < |s| {
      assert s[d + k] == t[k];
    }
    TailSlice(s, d, t, i, k, j, d + k);
  }

  /** `<name` read in the tail: the same name, ending `d` further on. */
  lemma OpeningShift(s: string, d: nat, t: string, i: nat, j: nat)
    requires TailAt(s, d, t) && i + 1 < |t| && j == d + i && t[i] == '<' && IsTagNameChar(t[i + 1])
    ensures var e := TagNameEnd(t, i + 1);
      && HitAt(t, i) == Some(Hit(Opening, t[i + 1..e], e))
      && HitAt(s, j) == Some(Hit(Opening, t[i + 1..e], d + e))
  {
    assert s[j] == t[i] && s[j + 1] == t[i + 1];
    TagNameEndShift(s, d, t, i + 1, j + 1);
  }

  /** The match at a position does not depend on the text before it. */
  lemma HitAtShift(s: string, d: nat, t: string, i: nat, j: nat)
    requires TailAt(s, d, t) && i < |t| && j == d + i
    ensures var g := HitAt(s, j); var h := HitAt(t, i);
      && g.None? == h.None?
      && (h.Some? ==> g.value.mark == h.value.mark && g.value.name == h.value.name && g.value.end == d + h.value.end)
  {
    assert s[j] == t[i];
    if t[i] == '<' && i + 1 < |t| && IsTagNameChar(t[i + 1]) {
      OpeningShift(s, d, t, i, j);
    } else if i + 1 < |t| {
      assert s[j + 1] == t[i + 1];
    }
  }

  /**
   * Hence the parts of a tail are the same whatever comes before it
   * (`j` and `lastJ` are `i` and `last` moved `d` further on).
   */
  lemma {:induction false} PartsShift(s: string, d: nat, t: string, i: nat, last: nat, j: nat, lastJ: nat)
    requires TailAt(s, d, t) && last <= i <= |t| && j == d + i && lastJ == d + last
    ensures PartsFrom(s, j, lastJ) == PartsFrom(t, i, last)
    decreases |t| - i, 1
  {
    if i == |t| {
      EndPartsShift(s, d, t, last, j, lastJ);
    } else if HitAt(t, i).None? {
      NoHitShift(s, d, t, i, last, j, lastJ);
    } else {
      HitShift(s, d, t, i, last, j, lastJ);
    }
  }

  /** At the end of both texts, the last plain part is the same text. */
  lemma EndPartsShift(s: string, d: nat, t: string, last: nat, j: nat, lastJ: nat)
    requires TailAt(s, d, t) && last <= |t| && j == d + |t| && lastJ == d + last
    ensures PartsFrom(s, j, lastJ) == PartsFrom(t, |t|, last)
  {
    TailSlice(s, d, t, last, |t|, lastJ, j);
    assert s[lastJ..] == s[lastJ..j] && t[last..] == t[last..|t|];
  }

  /** Without a match, both searches move on by one character. */
  lemma {:induction false} NoHitShift(s: string, d: nat, t: string, i: nat, last: nat, j: nat, lastJ: nat)
    requires TailAt(s, d, t) && last <= i < |t| && j == d + i && lastJ == d + last && HitAt(t, i).None?
    ensures PartsFrom(s, j, lastJ) == PartsFrom(t, i, last)
    decreases |t| - i, 0
  {
    PartsShift(s, d, t, i + 1, last, j + 1, lastJ);
    HitAtShift(s, d, t, i, j);
    NoHitAt(s, j, lastJ);
  }

  /** At a match, both searches take the same match and resume after it. */
  lemma {:induction false} HitShift(s: string, d: nat, t: string, i: nat, last: nat, j: nat, lastJ: nat)
    requires TailAt(s, d, t) && last <= i < |t| && j == d + i && lastJ == d + last && HitAt(t, i).Some?
    ensures PartsFrom(s, j, lastJ) == PartsFrom(t, i, last)
    decreases |t| - i, 0
  {
    var h := HitAt(t, i).value;
    PartsShift(s, d, t, h.end, h.end, d + h.end, d + h.end);
    HitAtShift(s, d, t, i, j);
    var g := HitAt(s, j).value;
    PartsAtHit(s, j, lastJ);
    PartsAtHit(t, i, last);
    TailSlice(s, d, t, last, i, lastJ, j);
    TailSlice(s, d, t, i, h.end, j, g.end);
  }

  lemma {:induction false} NoHitsBetween(s: string, i: nat, j: nat, last: nat)
    requires last <= i <= j <= |s|
    requires forall k :: i <= k < j ==> HitAt(s, k).None?
    ensures PartsFrom(s, i, last) == PartsFrom(s, j, last)
    decreases j - i
  {
    if i < j {
      NoHitAt(s, i, last);
      NoHitsBetween(s, i + 1, j, last);
    }
  }

  /** No match starts inside text without angle brackets, unless it ends in `/` before a `>`. */
  lemma NoHitInPlain(g: string, t: string)
    requires NoAngle(g)
    requires t != [] && t[0] == '>' && g != [] ==> g[|g| - 1] != '/'
    ensures forall k :: 0 <= k < |g| ==> HitAt(g + t, k).None?
  {
    var s := g + t;
    forall k | 0 <= k < |g| ensures HitAt(s, k).None? {
      assert s[k] == g[k];
      if k + 1 < |g| {
        assert s[k + 1] == g[k + 1];
      } else if k + 1 < |s| {
        assert s[k + 1] == t[0];
      }
    }
  }

  /** Where the current plain part started does not change what comes after it. */
  lemma {:induction false} PlainStartIrrelevant(s: string, i: nat, last: nat, last': nat)
    requires last <= i <= |s| && last' <= i
    ensures PartsFrom(s, i, last)[1..] == PartsFrom(s, i, last')[1..]
    decreases |s| - i
  {
    if i < |s| && HitAt(s, i).None? {
      PlainStartIrrelevant(s, i + 1, last, last');
    }
  }

  /** A match right after some text: that text, then what the match starts. */
  lemma PlainThenHit(g: string, t: string)
    requires t != [] && HitAt(t, 0).Some?
    ensures PartsFrom(g + t, |g|, 0) == [Plain(g)] + Parts(t)[1..]
  {
    var s := g + t;
    var ts := PartsFrom(s, |g|, 0);
    ConcatTail(g, t);
    PartsShift(s, |g|, t, 0, 0, |g|, |g|);
    PlainStartIrrelevant(s, |g|, 0, |g|);
    HitAtShift(s, |g|, t, 0, |g|);
    PartsAtHit(s, |g|, 0);
    assert s[0..|g|] == g;
    assert ts == [ts[0]] + ts[1..];
  }

  /**
   * Text without angle brackets followed by a match (or by nothing) is a
   * single plain part, provided it does not end in `/` right before a `>`.
   */
  lemma PlainBefore(g: string, t: string)
    requires NoAngle(g)
    requires t == [] || HitAt(t, 0).Some?
    requires t != [] && t[0] == '>' && g != [] ==> g[|g| - 1] != '/'
    ensures Parts(g + t) == [Plain(g)] + Parts(t)[1..]
  {
    var s := g + t;
    NoHitInPlain(g, t);
    NoHitsBetween(s, 0, |g|, 0);
    if t == [] {
      assert s == g && s[0..] == g;
    } else {
      PlainThenHit(g, t);
    }
  }

  /** A text that starts with a match: an empty plain part, the match, then the parts of the rest. */
  lemma HitFirst(x: string, u: string, mark: Mark, name: string)
    requires x != [] && HitAt(x + u, 0) == Some(Hit(mark, name, |x|))
    ensures Parts(x + u) == [Plain(""), Marked(mark, name, x)] + Parts(u)
  {
    PartsAtHit(x + u, 0, 0);
    assert (x + u)[0..|x|] == x;
    ConcatTail(x, u);
    PartsShift(x + u, |x|, u, 0, 0, |x|, |x|);
  }

  // ---------------------------------------------------------------------------
  // Well-nested input
  // ---------------------------------------------------------------------------

  /** A tag name this pattern reads whole: letters and dots only. */
  predicate JsxTagName(name: string)
  {
    |name| > 0 && forall k :: 0 <= k < |name| ==> IsTagNameChar(name[k])
  }

  /**
   * Attribute text that neither lengthens the name before it nor turns the
   * `>` after it into `/>`.
   */
  predicate JsxAttributeText(attrs: string)
  {
    attrs == [] || (!IsTagNameChar(attrs[0]) && attrs[|attrs| - 1] != '/')
  }

  /** `<name` with a character after it that cannot continue the name. */
  lemma OpeningAt(name: string, u: string)
    requires JsxTagName(name) && (u == [] || !IsTagNameChar(u[0]))
    ensures HitAt("<" + name + u, 0) == Some(Hit(Opening, name, |name| + 1))
  {
    var s := "<" + name + u;
    TagNameRun(s, 1);
    assert s[1] == name[0];
    forall j | 1 <= j < |name| + 1 ensures IsTagNameChar(s[j]) {
      assert s[j] == name[j - 1];
    }
    if |name| + 1 < |s| {
      assert s[|name| + 1] == u[0];
    }
    assert s[1..|name| + 1] == name;
  }

  /** The parts `prepareHtml` should meet in well-nested markup. */
  function ForestParts(f: Forest): seq<Part>
    decreases f, 2
  {
    [Plain(f.lead)] + ItemsParts(f.items)
  }

  function ItemsParts(items: seq<Item>): seq<Part>
    decreases items, 1
  {
    if items == [] then []
    else ElementParts(items[0].element) + ([Plain(items[0].trail)] + ItemsParts(items[1..]))
  }

  /** `<name`, the attributes, `/>`; or `<name`, the attributes, `>`, the body, `</`, the name, `>`. */
  function ElementParts(e: Element): seq<Part>
    decreases e, 0
  {
    match e
    case SelfClosed(name, attrs) =>
      [Marked(Opening, name, "<" + name), Plain(attrs), Marked(SelfClosing, "", "/>")]
    case Paired(name, attrs, body) =>
      [Marked(Opening, name, "<" + name), Plain(attrs), Marked(End, "", ">")]
      + (ForestParts(body) + ClosingParts(name))
  }

  function ClosingParts(name: string): seq<Part>
  {
    [Marked(Closing, "", "</"), Plain(name), Marked(End, "", ">")]
  }

  /** The search cuts well-nested markup exactly into the parts of its elements. */
  lemma MarkupParts(f: Forest)
    requires FormedForest(f, JsxTagName, JsxAttributeText)
    ensures Parts(Html(f)) == ForestParts(f)
  {
    ForestPartsScan(f, "");
    assert Html(f) + "" == Html(f);
    assert Parts("") == [Plain("")];
  }

  /** Markup followed by a text that starts with `<` and a match. */
  lemma {:induction false} ForestPartsScan(f: Forest, t: string)
    requires FormedForest(f, JsxTagName, JsxAttributeText)
    requires t == [] || (t[0] == '<' && HitAt(t, 0).Some?)
    ensures Parts(Html(f) + t) == ForestParts(f) + Parts(t)[1..]
    decreases f, 2
  {
    var x := ItemsHtml(f.items) + t;
    ItemsPartsScan(f.items, t);
    Assoc(f.lead, ItemsHtml(f.items), t);
    PlainBefore(f.lead, x);
    Assoc([Plain(f.lead)], ItemsParts(f.items), Parts(t)[1..]);
  }

  lemma {:induction false} ItemsPartsScan(items: seq<Item>, t: string)
    requires FormedItems(items, JsxTagName, JsxAttributeText)
    requires t == [] || (t[0] == '<' && HitAt(t, 0).Some?)
    ensures var x := ItemsHtml(items) + t; x == [] || (x[0] == '<' && HitAt(x, 0).Some?)
    ensures Parts(ItemsHtml(items) + t)[1..] == ItemsParts(items) + Parts(t)[1..]
    decreases items, 1
  {
    if items == [] {
      assert ItemsHtml(items) + t == t;
    } else {
      var e := items[0].element;
      var trail := items[0].trail;
      var y := ItemsHtml(items[1..]) + t;
      ItemsPartsScan(items[1..], t);
      ElementPartsScan(e, trail + y);
      PlainBefore(trail, y);
      Assoc(trail, ItemsHtml(items[1..]), t);
      Assoc(ElementHtml(e), trail + ItemsHtml(items[1..]), t);
      var rest := ItemsParts(items[1..]);
      var after := Parts(t)[1..];
      Assoc([Plain(trail)], rest, after);
      Assoc(ElementParts(e), [Plain(trail)] + rest, after);
    }
  }

  lemma {:induction false} ElementPartsScan(e: Element, u: string)
    requires FormedElement(e, JsxTagName, JsxAttributeText)
    ensures var x := ElementHtml(e) + u; x[0] == '<' && HitAt(x, 0).Some?
    ensures Parts(ElementHtml(e) + u)[1..] == ElementParts(e) + Parts(u)
    decreases e, 0
  {
    match e
    case SelfClosed(name, attrs) =>
      SelfClosedParts(name, attrs, u);
    case Paired(name, attrs, body) =>
      PairedParts(name, attrs, body, u);
  }

  lemma SelfClosedParts(name: string, attrs: string, u: string)
    requires JsxTagName(name) && JsxAttributeText(attrs) && NoAngle(attrs)
    ensures var x := ElementHtml(SelfClosed(name, attrs)) + u; x[0] == '<' && HitAt(x, 0).Some?
    ensures Parts(ElementHtml(SelfClosed(name, attrs)) + u)[1..] == ElementParts(SelfClosed(name, attrs)) + Parts(u)
  {
    var x := ElementHtml(SelfClosed(name, attrs)) + u;
    var v := attrs + ("/>" + u);
    Assoc("<" + name, attrs + "/>", u);
    Assoc(attrs, "/>", u);
    assert x == "<" + name + v;
    assert v[0] == if attrs == [] then '/' else attrs[0];
    OpeningThen(name, v);
    AttrsThenSelfClosing(attrs, u);
    var tail := [Plain(attrs), Marked(SelfClosing, "", "/>")] + Parts(u);
    assert [Marked(Opening, name, "<" + name)] + tail == ElementParts(SelfClosed(name, attrs)) + Parts(u);
  }

  /** `<name` and a text that cannot continue the name: the match, then the parts of that text. */
  lemma OpeningThen(name: string, v: string)
    requires JsxTagName(name) && (v == [] || !IsTagNameChar(v[0]))
    ensures var x := "<" + name + v; x[0] == '<' && HitAt(x, 0).Some?
    ensures Parts("<" + name + v)[1..] == [Marked(Opening, name, "<" + name)] + Parts(v)
  {
    var open := Marked(Opening, name, "<" + name);
    OpeningAt(name, v);
    HitFirst("<" + name, v, Opening, name);
    assert Parts("<" + name + v) == [Plain("")] + ([open] + Parts(v));
  }

  /** The attributes, then `/>`: a plain part and the closing mark. */
  lemma AttrsThenSelfClosing(attrs: string, u: string)
    requires JsxAttributeText(attrs) && NoAngle(attrs)
    ensures Parts(attrs + ("/>" + u)) == [Plain(attrs), Marked(SelfClosing, "", "/>")] + Parts(u)
  {
    assert HitAt("/>" + u, 0) == Some(Hit(SelfClosing, "", 2));
    PlainBefore(attrs, "/>" + u);
    HitFirst("/>", u, SelfClosing, "");
  }

  /** The attributes, then `>`: a plain part and the end mark. */
  lemma AttrsThenEnd(attrs: string, inner: string)
    requires JsxAttributeText(attrs) && NoAngle(attrs)
    ensures Parts(attrs + (">" + inner)) == [Plain(attrs)] + ([Marked(End, "", ">")] + Parts(inner))
  {
    assert HitAt(">" + inner, 0) == Some(Hit(End, "", 1));
    PlainBefore(attrs, ">" + inner);
    HitFirst(">", inner, End, "");
  }

  /** `</name>` and what follows it. */
  lemma ClosingScan(name: string, u: string)
    requires JsxTagName(name)
    ensures var w := "</" + name + ">" + u; w[0] == '<' && HitAt(w, 0).Some?
    ensures Parts("</" + name + ">" + u)[1..] == ClosingParts(name) + Parts(u)
  {
    var w := "</" + name + ">" + u;
    assert w == "</" + (name + (">" + u));
    assert HitAt(w, 0) == Some(Hit(Closing, "", 2));
    HitFirst("</", name + (">" + u), Closing, "");
    assert HitAt(">" + u, 0) == Some(Hit(End, "", 1));
    forall k | 0 <= k < |name| ensures name[k] != '<' && name[k] != '>' {
      assert IsTagNameChar(name[k]);
    }
    PlainBefore(name, ">" + u);
    HitFirst(">", u, End, "");
  }

  lemma {:induction false} PairedParts(name: string, attrs: string, body: Forest, u: string)
    requires FormedElement(Paired(name, attrs, body), JsxTagName, JsxAttributeText)
    ensures var x := ElementHtml(Paired(name, attrs, body)) + u; x[0] == '<' && HitAt(x, 0).Some?
    ensures Parts(ElementHtml(Paired(name, attrs, body)) + u)[1..]
      == ElementParts(Paired(name, attrs, body)) + Parts(u)
    decreases body, 4
  {
    var w := "</" + name + ">" + u;
    var inner := Html(body) + w;
    var v := attrs + (">" + inner);
    PairedHtml(name, attrs, body, u);
    assert v[0] == if attrs == [] then '>' else attrs[0];
    OpeningThen(name, v);
    PairedBodyParts(name, attrs, body, u);
    PairedPartsRegrouped(name, attrs, ForestParts(body), Parts(u));
  }

  /** What follows `<name` in a paired element: the attributes, `>`, the body and the closing tag. */
  lemma {:induction false} PairedBodyParts(name: string, attrs: string, body: Forest, u: string)
    requires FormedElement(Paired(name, attrs, body), JsxTagName, JsxAttributeText)
    ensures Parts(attrs + (">" + (Html(body) + ("</" + name + ">" + u))))
      == [Plain(attrs)] + ([Marked(End, "", ">")] + (ForestParts(body) + (ClosingParts(name) + Parts(u))))
    decreases body, 3
  {
    var w := "</" + name + ">" + u;
    var inner := Html(body) + w;
    ClosingScan(name, u);
    ForestPartsScan(body, w);
    assert Parts(inner) == ForestParts(body) + (ClosingParts(name) + Parts(u));
    AttrsThenEnd(attrs, inner);
  }

  /** Where `u` goes in a paired element's text. */
  lemma PairedHtml(name: string, attrs: string, body: Forest, u: string)
    ensures ElementHtml(Paired(name, attrs, body)) + u
      == "<" + name + (attrs + (">" + (Html(body) + ("</" + name + ">" + u))))
  {
    var close := "</" + name + ">";
    Assoc("<" + name, attrs + (">" + (Html(body) + close)), u);
    Assoc(attrs, ">" + (Html(body) + close), u);
    Assoc(">", Html(body) + close, u);
    Assoc(Html(body), close, u);
  }

  /** The regrouping of a paired element's parts. */
  lemma PairedPartsRegrouped(name: string, attrs: string, kids: seq<Part>, after: seq<Part>)
    ensures [Marked(Opening, name, "<" + name)] + ([Plain(attrs)] + ([Marked(End, "", ">")] + (kids + (ClosingParts(name) + after))))
      == ([Marked(Opening, name, "<" + name), Plain(attrs), Marked(End, "", ">")] + (kids + ClosingParts(name))) + after
  {
  }

  // ---------------------------------------------------------------------------
  // prepareHtml on well-nested input
  // ---------------------------------------------------------------------------

  /** The intended output: every self-closing element written out with its own closing tag. */
  function Expanded(f: Forest): string
    decreases f, 2
  {
    f.lead + ExpandedItems(f.items)
  }

  function ExpandedItems(items: seq<Item>): string
    decreases items, 1
  {
    if items == [] then "" else ExpandedElement(items[0].element) + (items[0].trail + ExpandedItems(items[1..]))
  }

  function ExpandedElement(e: Element): string
    decreases e, 0
  {
    match e
    case SelfClosed(name, attrs) => "<" + name + (attrs + ("></" + name + ">"))
    case Paired(name, attrs, body) => "<" + name + (attrs + (">" + (Expanded(body) + ("</" + name + ">"))))
  }

  /**
   * `prepareHtml` on well-nested markup: each `/>` becomes `></name>` with
   * the name of its own element, and everything else is copied.
   */
  lemma PrepareExpandsSelfClosing(f: Forest)
    requires FormedForest(f, JsxTagName, JsxAttributeText)
    ensures Prepare(Html(f)) == Expanded(f)
  {
    MarkupParts(f);
    ForestExpands(Prepared("", []), f);
  }

  /** The parts of well-nested markup add its expansion and leave the stack as it was. */
  lemma {:induction false} ForestExpands(p: Prepared, f: Forest)
    ensures PrepareAll(p, ForestParts(f)) == Prepared(p.out + Expanded(f), p.tree)
    decreases f, 2
  {
    var p1 := p.(out := p.out + f.lead);
    PrepareConcat(p, [Plain(f.lead)], ItemsParts(f.items));
    assert PrepareAll(p, [Plain(f.lead)]) == p1;
    ItemsExpand(p1, f.items);
    Assoc(p.out, f.lead, ExpandedItems(f.items));
  }

  lemma {:induction false} ItemsExpand(p: Prepared, items: seq<Item>)
    ensures PrepareAll(p, ItemsParts(items)) == Prepared(p.out + ExpandedItems(items), p.tree)
    decreases items, 1
  {
    if items != [] {
      var e := items[0].element;
      var trail := items[0].trail;
      var rest := ItemsParts(items[1..]);
      PrepareConcat(p, ElementParts(e), [Plain(trail)] + rest);
      ElementExpands(p, e);
      var p1 := Prepared(p.out + ExpandedElement(e), p.tree);
      var p2 := p1.(out := p1.out + trail);
      PrepareConcat(p1, [Plain(trail)], rest);
      assert PrepareAll(p1, [Plain(trail)]) == p2;
      ItemsExpand(p2, items[1..]);
      Assoc(p1.out, trail, ExpandedItems(items[1..]));
      Assoc(p.out, ExpandedElement(e), trail + ExpandedItems(items[1..]));
    }
  }

  lemma {:induction false} ElementExpands(p: Prepared, e: Element)
    ensures PrepareAll(p, ElementParts(e)) == Prepared(p.out + ExpandedElement(e), p.tree)
    decreases e, 0
  {
    match e
    case SelfClosed(name, attrs) =>
      var open := [Marked(Opening, name, "<" + name), Plain(attrs)];
      var p1 := OpenExpands(p, name, attrs);
      var close := [Marked(SelfClosing, "", "/>")];
      assert ElementParts(e) == open + close;
      PrepareConcat(p, open, close);
      assert (p.tree + [name])[..|p.tree|] == p.tree;
      assert PrepareAll(p1, close) == Prepared(p1.out + "></" + name + ">", p.tree);
      SelfClosedExpanded(p.out, name, attrs);
    case Paired(name, attrs, body) =>
      PairedExpands(p, name, attrs, body);
  }

  lemma SelfClosedExpanded(out: string, name: string, attrs: string)
    ensures out + "<" + name + attrs + "></" + name + ">" == out + ExpandedElement(SelfClosed(name, attrs))
  {
    var close := "></" + name + ">";
    assert "></" + name + ">" == close;
    Assoc(out + "<" + name, attrs, close);
    Assoc(out, "<" + name, attrs + close);
  }

  lemma {:induction false} PairedExpands(p: Prepared, name: string, attrs: string, body: Forest)
    ensures PrepareAll(p, ElementParts(Paired(name, attrs, body)))
      == Prepared(p.out + ExpandedElement(Paired(name, attrs, body)), p.tree)
    decreases body, 3
  {
    var open := [Marked(Opening, name, "<" + name), Plain(attrs)];
    var gt := [Marked(End, "", ">")];
    var kids := ForestParts(body);
    var close := ClosingParts(name);
    var p1 := OpenExpands(p, name, attrs);
    var p2 := p1.(out := p1.out + ">");
    var p3 := Prepared(p2.out + Expanded(body), p2.tree);
    assert ElementParts(Paired(name, attrs, body)) == open + (gt + (kids + close));
    PrepareConcat(p, open, gt + (kids + close));
    PrepareConcat(p1, gt, kids + close);
    assert PrepareAll(p1, gt) == p2;
    PrepareConcat(p2, kids, close);
    ForestExpands(p2, body);
    CloseExpands(p3, name, p.tree);
    PairedExpanded(p.out, name, attrs, Expanded(body));
  }

  lemma PairedExpanded(out: string, name: string, attrs: string, inner: string)
    ensures out + "<" + name + attrs + ">" + inner + "</" + name + ">"
      == out + ("<" + name + (attrs + (">" + (inner + ("</" + name + ">")))))
  {
    var close := "</" + name + ">";
    assert out + "<" + name + attrs + ">" + inner + "</" + name + ">" == out + "<" + name + attrs + ">" + inner + close;
    Assoc(out + "<" + name + attrs + ">", inner, close);
    Assoc(out + "<" + name + attrs, ">", inner + close);
    Assoc(out + "<" + name, attrs, ">" + (inner + close));
    Assoc(out, "<" + name, attrs + (">" + (inner + close)));
  }

  /** `<name` then the attribute text: the name is pushed. */
  lemma OpenExpands(p: Prepared, name: string, attrs: string) returns (p1: Prepared)
    ensures p1 == Prepared(p.out + "<" + name + attrs, p.tree + [name])
    ensures PrepareAll(p, [Marked(Opening, name, "<" + name), Plain(attrs)]) == p1
  {
    var open := [Marked(Opening, name, "<" + name), Plain(attrs)];
    var p0 := Prepared(p.out + "<" + name, p.tree + [name]);
    p1 := Prepared(p.out + "<" + name + attrs, p.tree + [name]);
    assert PrepareStep(p, open[0]) == p0;
    assert PrepareStep(p0, open[1]) == p1;
    assert open[1..] == [open[1]] && open[1..][1..] == [];
    assert PrepareAll(p, open) == PrepareAll(p0, open[1..]);
    assert PrepareAll(p0, open[1..]) == PrepareAll(p1, []);
  }

  /** `</`, the name, `>`: the top name is popped and the closing tag is copied. */
  lemma CloseExpands(p3: Prepared, name: string, below: seq<string>)
    requires p3.tree == below + [name]
    ensures PrepareAll(p3, ClosingParts(name)) == Prepared(p3.out + "</" + name + ">", below)
  {
    var close := ClosingParts(name);
    assert p3.tree[..|p3.tree| - 1] == below;
    var q1 := Prepared(p3.out + "</", below);
    var q2 := Prepared(p3.out + "</" + name, below);
    var q3 := Prepared(p3.out + "</" + name + ">", below);
    assert PrepareStep(p3, close[0]) == q1;
    assert PrepareStep(q1, close[1]) == q2;
    assert PrepareStep(q2, close[2]) == q3;
    assert close[1..] == [close[1], close[2]] && close[1..][1..] == [close[2]] && close[1..][1..][1..] == [];
    assert PrepareAll(p3, close) == PrepareAll(q1, close[1..]);
    assert PrepareAll(q1, close[1..]) == PrepareAll(q2, close[1..][1..]);
    assert PrepareAll(q2, close[1..][1..]) == PrepareAll(q3, []);
  }

  /**
   * A name with a character outside letters and dots is cut short: the stack
   * holds only its leading letters, so `<h1/>` becomes `<h1></h>`.
   */
  lemma NameCutAtDigit()
    ensures Prepare("<h1/>") == "<h1></h>"
  {
    var p0, p1, p2, p3 := Prepared("", []), Prepared("<h", ["h"]), Prepared("<h1", ["h"]), Prepared("<h1></h>", []);
    var a, b, c, d := Marked(Opening, "h", "<h"), Plain("1"), Marked(SelfClosing, "", "/>"), Plain("");
    CutNameParts();
    PrepareCons(p0, d, [a, b, c, d]);
    PrepareCons(p0, a, [b, c, d]);
    PrepareCons(p1, b, [c, d]);
    PrepareCons(p2, c, [d]);
    PrepareCons(p3, d, []);
  }

  lemma CutNameParts()
    ensures Parts("<h1/>")
      == [Plain("")] + [Marked(Opening, "h", "<h"), Plain("1"), Marked(SelfClosing, "", "/>"), Plain("")]
  {
    var s := "<h1/>";
    assert s[0] == '<' && s[1] == 'h' && s[2] == '1' && s[3] == '/' && s[4] == '>';
    assert TagNameEnd(s, 2) == 2;
    assert TagNameEnd(s, 1) == 2;
    assert s[1..2] == "h";
    assert HitAt(s, 0) == Some(Hit(Opening, "h", 2));
    assert HitAt(s, 3) == Some(Hit(SelfClosing, "", 5));
    PartsAtHit(s, 0, 0);
    NoHitAt(s, 2, 2);
    PartsAtHit(s, 3, 2);
    assert s[0..0] == "" && s[0..2] == "<h" && s[2..3] == "1" && s[3..5] == "/>" && s[5..] == "";
  }

  lemma PrepareCons(p: Prepared, x: Part, rest: seq<Part>)
    ensures PrepareAll(p, [x] + rest) == PrepareAll(PrepareStep(p, x), rest)
  {
    assert ([x] + rest)[0] == x && ([x] + rest)[1..] == rest;
  }

  // ---------------------------------------------------------------------------
  // The exported function's tidy-up
  // ---------------------------------------------------------------------------

  /** `s.replace(/\n\s{8}/g, '\n' + indent)`: a line break and the eight whitespace characters after it. */
  function Reindent(s: string, indent: string): string
    decreases |s|
  {
    if |s| >= 9 && s[0] == '\n' && AllSpace(s[1..9]) then "\n" + indent + Reindent(s[9..], indent)
    else if |s| == 0 then ""
    else [s[0]] + Reindent(s[1..], indent)
  }

  /** Text before the first line break is copied through. */
  lemma {:induction false} ReindentCopies(a: string, b: string, indent: string)
    requires '\n' !in a
    ensures Reindent(a + b, indent) == a + Reindent(b, indent)
    decreases |a|
  {
    if a == [] {
      assert a + b == b;
    } else {
      assert (a + b)[0] == a[0] && (a + b)[1..] == a[1..] + b;
      ReindentCopies(a[1..], b, indent);
      assert a == [a[0]] + a[1..];
    }
  }

  /** A line break with eight spaces after it takes the new indentation. */
  lemma ReindentLine(rest: string, indent: string)
    ensures Reindent("\n        " + rest, indent) == "\n" + indent + Reindent(rest, indent)
  {
    var s := "\n        " + rest;
    assert s[1..9] == "        ";
    assert s[9..] == rest;
  }

  /** The exported function, with the external converter passed in. */
  function HtmlToJsx(html: string, indent: string, convert: string -> string): (r: string)
    ensures forall q :: 0 <= q < |r| ==> !BlankTailAt(r, q)
  {
    var jsx := convert(Prepare(html));
    TrimLeavesNoBlankTail(Reindent(jsx, indent));
    TrimTrailingBlank(Reindent(jsx, indent))
  }
}
