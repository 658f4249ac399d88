/**
 * The conversion pipeline of `src/convert.js`: protect JSX properties inside
 * tags and assignment expressions, render, cut the HTML into tag and text
 * fragments, rewrite each fragment for JSX, indent, and restore the
 * protected text.
 *
 * The HTML walker (`hastml`), the Markdown renderer, the escaper and the
 * module formatters are outside the model and are passed in as functions.
 */
module Convert {

  import opened Strings
  import opened ReplacementCache
  import opened ModuleHeader

  /** The comment prefix that marks a protected assignment expression. */
  const AssignmentPrefix := "[mcl-assignment]:"

  /** What is rendered when the renderer produces nothing. */
  const NoInput := "<!-- no input given -->"

  // ---------------------------------------------------------------------------
  // Tag records as the external walker reports them
  // ---------------------------------------------------------------------------

  /** A walker tag record; an index the walker has not set is `None`. */
  datatype HastTag = HastTag(
    state: string,
    openIndex: nat,
    contentIndex: Option<nat>,
    closeIndex: Option<nat>,
    closingIndex: Option<nat>)

  /**
   * One callback of the walker: which record it was handed (records are
   * shared between callbacks), the record as it was at that moment, and the
   * record as it is once the walk has finished.
   */
  datatype Visit = Visit(id: nat, seen: HastTag, final: HastTag)

  /** A `[start, end]` pair of the first walk. */
  datatype Span = Span(start: nat, end: nat)

  /** The span a callback contributes: only once the record has a `closeIndex`. */
  function SpanOf(t: HastTag): (r: Option<Span>)
    ensures r.Some? <==> t.closeIndex.Some?
    ensures r.Some? ==> r.value.start == t.openIndex
    ensures r.Some? ==> r.value.end == (if t.contentIndex.Some? then t.contentIndex.value else t.closeIndex.value)
  {
    match t.closeIndex
    case None => None
    case Some(close) =>
      match t.contentIndex
      case Some(content) => Some(Span(t.openIndex, content))
      case None => Some(Span(t.openIndex, close))
  }

  /** What one callback pushes: its span, or nothing. */
  function Pushed(v: Visit): (r: seq<Span>)
    ensures |r| <= 1
  {
    match SpanOf(v.seen) case Some(sp) => [sp] case None => []
  }

  /** The spans of a walk, in callback order. */
  function Spans(visits: seq<Visit>): (r: seq<Span>)
    ensures |r| <= |visits|
    decreases |visits|
  {
    if visits == [] then [] else Pushed(visits[0]) + Spans(visits[1..])
  }

  lemma {:induction false} SpansConcat(a: seq<Visit>, b: seq<Visit>)
    ensures Spans(a + b) == Spans(a) + Spans(b)
    decreases |a|
  {
    if a == [] {
      assert a + b == b;
    } else {
      SpansConcat(a[1..], b);
      assert (a + b)[0] == a[0] && (a + b)[1..] == a[1..] + b;
      Assoc(Pushed(a[0]), Spans(a[1..]), Spans(b));
    }
  }

  /** The first walk: push a span for every callback whose record is closed. */
  method CollectSpans(visits: seq<Visit>) returns (spans: seq<Span>)
    ensures spans == Spans(visits)
  {
    spans := [];
    var i := 0;
    while i < |visits|
      invariant 0 <= i <= |visits|
      invariant spans == Spans(visits[..i])
    {
      SpansConcat(visits[..i], [visits[i]]);
      assert visits[..i + 1] == visits[..i] + [visits[i]];
      assert Spans([visits[i]]) == Pushed(visits[i]) + Spans([]);
      var sp := SpanOf(visits[i].seen);
      if sp.Some? {
        spans := spans + [sp.value];
      }
      i := i + 1;
    }
    assert visits[..i] == visits;
  }

  // ---------------------------------------------------------------------------
  // The splice loop: each span is loaded into the property cache in place
  // ---------------------------------------------------------------------------

  /** The loop's variables: the text, the running offset and the cache table. */
  datatype Spliced = Spliced(text: string, offset: int, table: Table)

  /** One iteration: shift the span by the offset, load that slice, splice it back. */
  function SpliceStep(c: CacheConfig, st: Spliced, sp: Span): Spliced
  {
    var tag := SpanText(st, sp);
    SpliceIn(st, sp, |tag|, LoadText(c, tag), Record(st.table, Scan(c, tag)))
  }

  /** The text the span covers once shifted by the offset. */
  function SpanText(st: Spliced, sp: Span): string
  {
    JsSlice(st.text, sp.start + st.offset, sp.end + st.offset)
  }

  /** Put `loaded` where the shifted span was and adjust the offset by the change of length. */
  function SpliceIn(st: Spliced, sp: Span, tagLength: nat, loaded: string, table: Table): Spliced
  {
    var startIndex := sp.start + st.offset;
    var endIndex := sp.end + st.offset;
    Spliced(
      JsSlice(st.text, 0, startIndex) + loaded + JsSlice(st.text, endIndex, |st.text|),
      st.offset + |loaded| - tagLength,
      table)
  }

  function SpliceAll(c: CacheConfig, st: Spliced, spans: seq<Span>): Spliced
    decreases |spans|
  {
    if spans == [] then st else SpliceAll(c, SpliceStep(c, st, spans[0]), spans[1..])
  }

  /** The splice loop keeps the cache table well formed. */
  lemma {:induction false} SpliceKeepsWellFormed(c: CacheConfig, st: Spliced, spans: seq<Span>)
    requires WellFormed(st.table)
    ensures WellFormed(SpliceAll(c, st, spans).table)
    decreases |spans|
  {
    if spans != [] {
      RecordContains(st.table, Scan(c, SpanText(st, spans[0])));
      SpliceKeepsWellFormed(c, SpliceStep(c, st, spans[0]), spans[1..]);
    }
  }

  /** The splice loop as written, with the property cache object. */
  method ProtectProperties(cache: StringReplacementCache, markdown: string, spans: seq<Span>) returns (text: string)
    requires cache.Valid()
    modifies cache
    ensures cache.Valid()
    ensures text == SpliceAll(cache.config, Spliced(markdown, 0, old(cache.Contents())), spans).text
    ensures cache.Contents() == SpliceAll(cache.config, Spliced(markdown, 0, old(cache.Contents())), spans).table
  {
    ghost var goal := SpliceAll(cache.config, Spliced(markdown, 0, cache.Contents()), spans);
    var offset: int := 0;
    text := markdown;
    var i := 0;
    while i < |spans|
      invariant 0 <= i <= |spans|
      invariant cache.Valid()
      invariant SpliceAll(cache.config, Spliced(text, offset, cache.Contents()), spans[i..]) == goal
    {
      SpliceAllFrom(cache.config, Spliced(text, offset, cache.Contents()), spans, i);
      text, offset := SpliceSpan(cache, text, offset, spans[i]);
      i := i + 1;
    }
  }

  /** One iteration of the splice loop: load the shifted span's text and splice it back. */
  method SpliceSpan(cache: StringReplacementCache, text: string, offset: int, sp: Span) returns (spliced: string, shifted: int)
    requires cache.Valid()
    modifies cache
    ensures cache.Valid()
    ensures Spliced(spliced, shifted, cache.Contents()) == SpliceStep(cache.config, Spliced(text, offset, old(cache.Contents())), sp)
  {
    var startIndex := sp.start + offset;
    var endIndex := sp.end + offset;
    var tagWithNoReplacements := JsSlice(text, startIndex, endIndex);
    var tagWithPropertyReplacements := cache.Load(tagWithNoReplacements);
    spliced := JsSlice(text, 0, startIndex) + tagWithPropertyReplacements + JsSlice(text, endIndex, |text|);
    shifted := offset + |tagWithPropertyReplacements| - |tagWithNoReplacements|;
  }

  /** The loop from the `i`-th span: one step, then the loop from the next. */
  lemma SpliceAllFrom(c: CacheConfig, st: Spliced, spans: seq<Span>, i: nat)
    requires i < |spans|
    ensures SpliceAll(c, st, spans[i..]) == SpliceAll(c, SpliceStep(c, st, spans[i]), spans[i + 1..])
  {
    assert spans[i..][0] == spans[i] && spans[i..][1..] == spans[i + 1..];
  }

  /** Spans in ascending order, not overlapping, between `from` and `n`. */
  predicate Ordered(spans: seq<Span>, from: nat, n: nat)
    decreases |spans|
  {
    spans == [] || (from <= spans[0].start <= spans[0].end <= n && Ordered(spans[1..], spans[0].end, n))
  }

  /** The intended result: text between spans copied, each span's text loaded. */
  function Protected(c: CacheConfig, s: string, spans: seq<Span>, from: nat): string
    requires from <= |s| && Ordered(spans, from, |s|)
    decreases |spans|
  {
    if spans == [] then s[from..]
    else s[from..spans[0].start] + LoadText(c, s[spans[0].start..spans[0].end])
         + Protected(c, s, spans[1..], spans[0].end)
  }

  /**
   * For ascending, non-overlapping spans the loop computes the intended
   * text, and the running offset is the total change of length so far.
   */
  lemma {:induction false} SpliceOrdered(c: CacheConfig, s: string, spans: seq<Span>, from: nat, st: Spliced, done: string)
    requires from <= |s| && Ordered(spans, from, |s|)
    requires st.text == done + s[from..] && st.offset == |done| - from
    ensures SpliceAll(c, st, spans).text == done + Protected(c, s, spans, from)
    ensures SpliceAll(c, st, spans).offset == |SpliceAll(c, st, spans).text| - |s|
    decreases |spans|
  {
    if spans != [] {
      var sp := spans[0];
      var head := s[from..sp.start] + LoadText(c, s[sp.start..sp.end]);
      var next := SpliceStep(c, st, sp);
      SpliceStepInPlace(c, s, sp, from, st, done);
      SpliceOrdered(c, s, spans[1..], sp.end, next, done + head);
      var rest := Protected(c, s, spans[1..], sp.end);
      assert Protected(c, s, spans, from) == head + rest;
      Assoc(done, head, rest);
    }
  }

  /** One iteration on a span at or after the part already done. */
  lemma SpliceStepInPlace(c: CacheConfig, s: string, sp: Span, from: nat, st: Spliced, done: string)
    requires from <= sp.start <= sp.end <= |s|
    requires st.text == done + s[from..] && st.offset == |done| - from
    ensures var head := s[from..sp.start] + LoadText(c, s[sp.start..sp.end]);
      && SpliceStep(c, st, sp).text == (done + head) + s[sp.end..]
      && SpliceStep(c, st, sp).offset == |done + head| - sp.end
  {
    var tag := SpanText(st, sp);
    SpanInPlace(s, sp, from, st, done);
    SpliceInPlace(s, sp, from, st, done, LoadText(c, tag), Record(st.table, Scan(c, tag)));
  }

  /** A span at or after the part already done covers its own text. */
  lemma SpanInPlace(s: string, sp: Span, from: nat, st: Spliced, done: string)
    requires from <= sp.start <= sp.end <= |s|
    requires st.text == done + s[from..] && st.offset == |done| - from
    ensures SpanText(st, sp) == s[sp.start..sp.end]
  {
    DoneSlices(done, s, from, sp.start, sp.end);
  }

  /** Splicing in at such a span keeps the text before it and after it. */
  lemma SpliceInPlace(s: string, sp: Span, from: nat, st: Spliced, done: string, loaded: string, table: Table)
    requires from <= sp.start <= sp.end <= |s|
    requires st.text == done + s[from..] && st.offset == |done| - from
    ensures var head := s[from..sp.start] + loaded;
      && SpliceIn(st, sp, sp.end - sp.start, loaded, table).text == (done + head) + s[sp.end..]
      && SpliceIn(st, sp, sp.end - sp.start, loaded, table).offset == |done + head| - sp.end
  {
    DoneSlices(done, s, from, sp.start, sp.end);
  }

  /** Positions of `s` from `from` on sit `|done| - from` further along in `done + s[from..]`. */
  lemma DoneSlices(done: string, s: string, from: nat, p: nat, q: nat)
    requires from <= p <= q <= |s|
    ensures var text := done + s[from..];
      && text[|done| + (p - from)..|done| + (q - from)] == s[p..q]
      && text[0..|done| + (p - from)] == done + s[from..p]
      && text[|done| + (q - from)..|text|] == s[q..]
  {
    MiddleSlice(done, s[from..], p - from, q - from);
    assert s[from..][..p - from] == s[from..p] && s[from..][p - from..q - from] == s[p..q];
    assert s[from..][q - from..] == s[q..];
  }

  lemma MiddleSlice(done: string, u: string, p: nat, q: nat)
    requires p <= q <= |u|
    ensures var text := done + u;
      && text[|done| + p..|done| + q] == u[p..q]
      && text[0..|done| + p] == done + u[..p]
      && text[|done| + q..|text|] == u[q..]
  {
  }

  /** From the start of the text: the loop equals the intended protection. */
  lemma ProtectOrderedSpans(c: CacheConfig, s: string, spans: seq<Span>, t: Table)
    requires Ordered(spans, 0, |s|)
    ensures SpliceAll(c, Spliced(s, 0, t), spans).text == Protected(c, s, spans, 0)
  {
    SpliceOrdered(c, s, spans, 0, Spliced(s, 0, t), "");
    assert "" + Protected(c, s, spans, 0) == Protected(c, s, spans, 0);
  }

  /**
   * Spans in close order (an inner tag's span before its outer tag's) are
   * not handled: the outer span is shifted by the inner span's change of
   * length. With a pattern matching whole texts and a one-letter identity,
   * `abcd` with the spans `[2, 4]` then `[0, 2]` becomes `abbh`, where the
   * ascending order gives `hh`.
   */
  lemma CloseOrderMisplaces()
    ensures SpliceAll(WholeTextConfig(), Spliced("abcd", 0, EmptyTable), [Span(2, 4), Span(0, 2)]).text == "abbh"
    ensures Protected(WholeTextConfig(), "abcd", [Span(0, 2), Span(2, 4)], 0) == "hh"
  {
    CloseOrderSplice();
    AscendingOrderProtects();
  }

  lemma CloseOrderSplice()
    ensures SpliceAll(WholeTextConfig(), Spliced("abcd", 0, EmptyTable), [Span(2, 4), Span(0, 2)]).text == "abbh"
  {
    var c := WholeTextConfig();
    var st1 := SpliceStep(c, Spliced("abcd", 0, EmptyTable), Span(2, 4));
    InnerSpanFirst();
    OuterSpanShifted(st1.table);
    var st2 := SpliceStep(c, st1, Span(0, 2));
    assert [Span(2, 4), Span(0, 2)][1..] == [Span(0, 2)];
    assert SpliceAll(c, st1, [Span(0, 2)]) == SpliceAll(c, st2, []);
  }

  /** The inner span `[2, 4]` goes first: `cd` becomes `h` and the offset drops to -1. */
  lemma InnerSpanFirst()
    ensures var st := SpliceStep(WholeTextConfig(), Spliced("abcd", 0, EmptyTable), Span(2, 4));
      st.text == "abh" && st.offset == -1
  {
    var c := WholeTextConfig();
    assert "abcd"[2..4] == "cd";
    WholeTextLoad(c, "cd");
    var st := SpliceStep(c, Spliced("abcd", 0, EmptyTable), Span(2, 4));
    assert st.text == "ab" + "h" + "";
  }

  /** The outer span `[0, 2]`, shifted to `[-1, 1]`, slices nothing and keeps a copy of `b`. */
  lemma OuterSpanShifted(t: Table)
    ensures SpliceStep(WholeTextConfig(), Spliced("abh", -1, t), Span(0, 2)).text == "abbh"
  {
    var c := WholeTextConfig();
    assert JsSlice("abh", -1, 1) == "";
    assert Scan(c, "") == [Text("")];
    assert LoadText(c, "") == "" + Render([], {}, map[]);
    assert JsSlice("abh", 0, -1) == "ab" && JsSlice("abh", 1, 3) == "bh";
    assert SpliceStep(c, Spliced("abh", -1, t), Span(0, 2)).text == "ab" + "" + "bh";
  }

  lemma AscendingOrderProtects()
    ensures Protected(WholeTextConfig(), "abcd", [Span(0, 2), Span(2, 4)], 0) == "hh"
  {
    var c := WholeTextConfig();
    assert "abcd"[0..2] == "ab" && "abcd"[2..4] == "cd";
    WholeTextLoad(c, "ab");
    WholeTextLoad(c, "cd");
    assert Ordered([Span(0, 2), Span(2, 4)], 0, 4);
    assert [Span(0, 2), Span(2, 4)][1..] == [Span(2, 4)];
    assert Protected(c, "abcd", [Span(2, 4)], 2) == "" + "h" + "abcd"[4..];
  }

  /** The whole-text pattern loads any two-letter text to `h`. */
  lemma WholeTextLoad(c: CacheConfig, s: string)
    requires c == WholeTextConfig() && |s| == 2
    ensures LoadText(c, s) == "h"
  {
    assert s[0..2] == s && s[0..0] == "" && s[2..] == "";
    assert c.expression(s, 0) == Some(Match(0, 2, []));
    assert c.expression(s, 2) == None;
    assert ScanFrom(c, s, 2, 2) == [Text(s[2..])];
    assert Identity(c, s, []) == "h";
    assert Scan(c, s) == [Text(""), Slot("h", Payload(c, s, []))] + [Text("")];
    var ps := [Text(""), Slot("h", Payload(c, s, []))] + [Text("")];
    assert Render([Text("")], {}, map[]) == "";
    assert ps[1..] == [Slot("h", Payload(c, s, [])), Text("")];
    assert Render(ps[1..], {}, map[]) == "h" + Render([Text("")], {}, map[]);
    assert Render(ps, {}, map[]) == "" + Render(ps[1..], {}, map[]);
  }

  // ---------------------------------------------------------------------------
  // Collecting the rendered HTML's tags and their cut points
  // ---------------------------------------------------------------------------

  /** The visits whose record has not been seen before, in order: `indexOf(tag) === -1`. */
  function Distinct(visits: seq<Visit>, seen: set<nat>): (r: seq<Visit>)
    ensures forall i :: 0 <= i < |r| ==> r[i] in visits && r[i].id !in seen
    ensures forall i, j :: 0 <= i < j < |r| ==> r[i].id != r[j].id
    decreases |visits|
  {
    if visits == [] then []
    else if visits[0].id in seen then Distinct(visits[1..], seen)
    else [visits[0]] + Distinct(visits[1..], seen + {visits[0].id})
  }

  /** Every record not seen before is kept, and each kept visit is its record's first one. */
  lemma {:induction false} DistinctKeepsFirst(visits: seq<Visit>, seen: set<nat>, k: nat)
    requires k < |visits| && visits[k].id !in seen
    requires forall j :: 0 <= j < k ==> visits[j].id != visits[k].id
    ensures visits[k] in Distinct(visits, seen)
    decreases k
  {
    if k > 0 {
      var rest := visits[1..];
      assert rest[k - 1] == visits[k];
      var seen' := if visits[0].id in seen then seen else seen + {visits[0].id};
      DistinctKeepsFirst(rest, seen', k - 1);
    }
  }

  /** The second walk: each record once, in the order first handed over. */
  method CollectTags(visits: seq<Visit>) returns (tags: seq<Visit>)
    ensures tags == Distinct(visits, {})
  {
    tags := [];
    ghost var seen: set<nat> := {};
    var i := 0;
    while i < |visits|
      invariant 0 <= i <= |visits|
      invariant seen == set j | 0 <= j < |tags| :: tags[j].id
      invariant tags + Distinct(visits[i..], seen) == Distinct(visits, {})
    {
      assert visits[i..][1..] == visits[i + 1..];
      var known := false;
      var j := 0;
      while j < |tags|
        invariant 0 <= j <= |tags|
        invariant known <==> exists k :: 0 <= k < j && tags[k].id == visits[i].id
      {
        if tags[j].id == visits[i].id {
          known := true;
        }
        j := j + 1;
      }
      assert known <==> visits[i].id in seen;
      if !known {
        ghost var rest := Distinct(visits[i + 1..], seen + {visits[i].id});
        assert Distinct(visits[i..], seen) == [visits[i]] + rest;
        assert tags + ([visits[i]] + rest) == (tags + [visits[i]]) + rest;
        ghost var before := tags;
        tags := tags + [visits[i]];
        assert (set j | 0 <= j < |tags| :: tags[j].id) == seen + {visits[i].id} by {
          forall x | x in seen ensures x in (set j | 0 <= j < |tags| :: tags[j].id) {
            var j :| 0 <= j < |before| && before[j].id == x;
            assert tags[j] == before[j];
          }
          assert tags[|tags| - 1].id == visits[i].id;
        }
        seen := seen + {visits[i].id};
      } else {
        assert Distinct(visits[i..], seen) == Distinct(visits[i + 1..], seen);
      }
      i := i + 1;
    }
  }

  /** The cut points one record contributes. */
  function TagCuts(html: string, t: HastTag): (r: seq<nat>)
    ensures |r| >= 1 && r[0] == t.openIndex
  {
    [t.openIndex]
    + (match t.contentIndex case Some(content) => [content + 1] case None => [])
    + (match t.closingIndex case Some(closing) => [closing] case None => [])
    + (match t.closeIndex
       case Some(close) =>
         if t.state == "open" then (if close < |html| && html[close] == '-' then [close + 3] else [close + 2])
         else [close + 1]
       case None => [])
  }

  function AllCuts(html: string, tags: seq<Visit>): seq<nat>
    decreases |tags|
  {
    if tags == [] then [] else TagCuts(html, tags[0].final) + AllCuts(html, tags[1..])
  }

  lemma {:induction false} AllCutsConcat(html: string, a: seq<Visit>, b: seq<Visit>)
    ensures AllCuts(html, a + b) == AllCuts(html, a) + AllCuts(html, b)
    decreases |a|
  {
    if a == [] {
      assert a + b == b;
    } else {
      AllCutsConcat(html, a[1..], b);
      assert (a + b)[0] == a[0] && (a + b)[1..] == a[1..] + b;
      Assoc(TagCuts(html, a[0].final), AllCuts(html, a[1..]), AllCuts(html, b));
    }
  }

  /** `htmlOffsets`: 0, then every record's cut points, read after the walk. */
  method CollectOffsets(html: string, tags: seq<Visit>) returns (offsets: seq<nat>)
    ensures offsets == [0] + AllCuts(html, tags)
  {
    offsets := [0];
    var i := 0;
    while i < |tags|
      invariant 0 <= i <= |tags|
      invariant offsets == [0] + AllCuts(html, tags[..i])
    {
      AllCutsConcat(html, tags[..i], [tags[i]]);
      assert tags[..i + 1] == tags[..i] + [tags[i]];
      assert AllCuts(html, [tags[i]]) == TagCuts(html, tags[i].final) + AllCuts(html, []);
      offsets := PushCuts(html, tags[i].final, offsets);
      i := i + 1;
    }
    assert tags[..i] == tags;
  }

  /** The body of the `forEach` over records: push the record's cut points. */
  method PushCuts(html: string, t: HastTag, offsets: seq<nat>) returns (pushed: seq<nat>)
    ensures pushed == offsets + TagCuts(html, t)
  {
    pushed := offsets + [t.openIndex];
    if t.contentIndex.Some? {
      pushed := pushed + [t.contentIndex.value + 1];
    }
    if t.closingIndex.Some? {
      pushed := pushed + [t.closingIndex.value];
    }
    if t.closeIndex.Some? {
      var close := t.closeIndex.value;
      if t.state == "open" {
        if close < |html| && html[close] == '-' {
          pushed := pushed + [close + 3];
        } else {
          pushed := pushed + [close + 2];
        }
      } else {
        pushed := pushed + [close + 1];
      }
    }
  }

  // ---------------------------------------------------------------------------
  // Sorting, de-duplicating and cutting
  // ---------------------------------------------------------------------------

  predicate Ascending(xs: seq<nat>)
  {
    forall i, j :: 0 <= i < j < |xs| ==> xs[i] <= xs[j]
  }

  predicate StrictlyAscending(xs: seq<nat>)
  {
    forall i, j :: 0 <= i < j < |xs| ==> xs[i] < xs[j]
  }

  function Insert(x: nat, xs: seq<nat>): (r: seq<nat>)
    requires Ascending(xs)
    ensures Ascending(r) && multiset(r) == multiset(xs) + multiset{x}
    decreases |xs|
  {
    if xs == [] then [x]
    else if x <= xs[0] then [x] + xs
    else
      var rest := Insert(x, xs[1..]);
      InsertBehindHead(x, xs, rest);
      [xs[0]] + rest
  }

  /** A value above the head goes into the tail; the head stays first. */
  lemma InsertBehindHead(x: nat, xs: seq<nat>, rest: seq<nat>)
    requires Ascending(xs) && |xs| > 0 && xs[0] < x
    requires Ascending(rest) && multiset(rest) == multiset(xs[1..]) + multiset{x}
    ensures Ascending([xs[0]] + rest) && multiset([xs[0]] + rest) == multiset(xs) + multiset{x}
  {
    assert xs == [xs[0]] + xs[1..];
    forall k | 0 <= k < |rest| ensures xs[0] <= rest[k] {
      assert rest[k] in multiset(rest);
      if rest[k] != x {
        assert rest[k] in multiset(xs[1..]);
        var j :| 1 <= j < |xs| && xs[j] == rest[k];
      }
    }
  }

  /** `sort((first, second) => first - second)`: ascending numeric order. */
  function Sort(xs: seq<nat>): (r: seq<nat>)
    ensures Ascending(r) && multiset(r) == multiset(xs)
    decreases |xs|
  {
    if xs == [] then []
    else
      assert xs == [xs[0]] + xs[1..];
      Insert(xs[0], Sort(xs[1..]))
  }

  /** `filter((number, index, array) => !index || number !== array[index - 1])`. */
  function DropRepeats(xs: seq<nat>): (r: seq<nat>)
    ensures |xs| > 0 ==> |r| > 0 && r[0] == xs[0] && r[|r| - 1] == xs[|xs| - 1]
    ensures forall x :: x in r <==> x in xs
    ensures Ascending(xs) ==> StrictlyAscending(r)
    decreases |xs|
  {
    if |xs| <= 1 then xs
    else
      var init := DropRepeats(xs[..|xs| - 1]);
      assert forall x :: x in xs <==> x in xs[..|xs| - 1] || x == xs[|xs| - 1];
      if xs[|xs| - 1] == xs[|xs| - 2] then init else init + [xs[|xs| - 1]]
  }

  /** Each cut point's slice up to the next one; the last runs to the end. */
  function Segments(html: string, cuts: seq<nat>): (r: seq<string>)
    ensures |r| == |cuts|
    decreases |cuts|
  {
    if cuts == [] then []
    else if |cuts| == 1 then [JsSlice(html, cuts[0], |html|)]
    else [JsSlice(html, cuts[0], cuts[1])] + Segments(html, cuts[1..])
  }

  /** Ascending cut points cut the text from the first one on into consecutive pieces. */
  lemma {:induction false} SegmentsCover(html: string, cuts: seq<nat>)
    requires |cuts| > 0 && Ascending(cuts)
    ensures Concat(Segments(html, cuts)) == html[ClampIndex(cuts[0], |html|)..]
    decreases |cuts|
  {
    if |cuts| > 1 {
      SegmentsCover(html, cuts[1..]);
      var a := ClampIndex(cuts[0], |html|);
      var b := ClampIndex(cuts[1], |html|);
      assert a <= b;
      assert JsSlice(html, cuts[0], cuts[1]) == html[a..b];
      assert html[a..] == html[a..b] + html[b..];
    }
  }

  /** With 0 among the cut points, the fragments concatenate back to the whole HTML. */
  lemma FragmentsRebuildHtml(html: string, offsets: seq<nat>)
    requires |offsets| > 0 && offsets[0] == 0
    ensures Concat(Segments(html, DropRepeats(Sort(offsets)))) == html
  {
    var sorted := Sort(offsets);
    assert 0 in multiset(sorted);
    var z :| 0 <= z < |sorted| && sorted[z] == 0;
    assert sorted[0] <= sorted[z];
    var cuts := DropRepeats(sorted);
    SegmentsCover(html, cuts);
  }

  // ---------------------------------------------------------------------------
  // Rewriting one fragment
  // ---------------------------------------------------------------------------

  /** `fragment[0] === '<' || fragment[fragment.length - 1] === '>'`. */
  predicate IsTagFragment(f: string)
  {
    |f| > 0 && (f[0] == '<' || f[|f| - 1] == '>')
  }

  /** `\sclass=` at `k`. */
  predicate ClassAt(f: string, k: nat)
  {
    k + 7 <= |f| && IsSpace(f[k]) && f[k + 1..k + 7] == "class="
  }

  function FirstClassAt(f: string, i: nat): (k: Option<nat>)
    requires i <= |f|
    ensures k.Some? ==> i <= k.value < |f| && ClassAt(f, k.value)
    ensures k.Some? ==> forall j :: i <= j < k.value ==> !ClassAt(f, j)
    ensures k.None? ==> forall j :: i <= j < |f| ==> !ClassAt(f, j)
    decreases |f| - i
  {
    if i == |f| then None
    else if ClassAt(f, i) then Some(i)
    else FirstClassAt(f, i + 1)
  }

  /** `replace(/(\sclass)(=)/, '$1Name$2')`: the leftmost ` class=` becomes ` className=`. */
  function RenameClass(f: string): (r: string)
    ensures FirstClassAt(f, 0).None? ==> r == f
    ensures FirstClassAt(f, 0).Some? ==>
      var k := FirstClassAt(f, 0).value;
      |r| == |f| + 4 && r[..k + 1] == f[..k + 1] && r[k + 1..k + 11] == "className="
      && r[k + 11..] == f[k + 7..]
  {
    match FirstClassAt(f, 0)
    case None => f
    case Some(k) =>
      var r := f[..k + 6] + "Name" + f[k + 6..];
      assert f[k + 1..k + 6] == f[k + 1..k + 7][..5] == "class";
      assert f[k + 6] == f[k + 1..k + 7][5] == '=';
      assert r[k + 1..k + 11] == f[k + 1..k + 6] + "Name" + [f[k + 6]];
      assert r[k + 11..] == f[k + 7..];
      r
  }

  /** The end of the whitespace run starting at `i`. */
  function SpaceEnd(s: string, i: nat): (j: nat)
    requires i <= |s|
    ensures i <= j <= |s|
    ensures forall k :: i <= k < j ==> IsSpace(s[k])
    ensures j == |s| || !IsSpace(s[j])
    decreases |s| - i
  {
    if i < |s| && IsSpace(s[i]) then SpaceEnd(s, i + 1) else i
  }

  /** `\s*\/?>` matches at `p`. */
  predicate TagCloseAt(g: string, p: nat)
  {
    p <= |g| &&
    var q := SpaceEnd(g, p);
    (q < |g| && g[q] == '>') || (q + 1 < |g| && g[q] == '/' && g[q + 1] == '>')
  }

  function FirstTagCloseAt(g: string, i: nat): (p: Option<nat>)
    requires i <= |g|
    ensures p.Some? ==> i <= p.value < |g| && TagCloseAt(g, p.value)
    ensures p.Some? ==> forall j :: i <= j < p.value ==> !TagCloseAt(g, j)
    ensures p.None? ==> forall j :: i <= j < |g| ==> !TagCloseAt(g, j)
    decreases |g| - i
  {
    if i == |g| then None
    else if TagCloseAt(g, i) then Some(i)
    else FirstTagCloseAt(g, i + 1)
  }

  /** `fragment.search(/[\s\n]/)`: the first whitespace position, or -1. */
  function SearchSpace(g: string, i: nat): (k: int)
    requires i <= |g|
    ensures k == -1 || (i <= k < |g| && IsSpace(g[k]))
    ensures forall j :: i <= j < |g| && (k == -1 || j < k) ==> !IsSpace(g[j])
    decreases |g| - i
  {
    if i == |g| then -1 else if IsSpace(g[i]) then i else SearchSpace(g, i + 1)
  }

  function Spread(escapedName: string): string
  {
    " {...elementProps[" + escapedName + "]}"
  }

  /**
   * `fragment.replace(/(\s*\/?>)/, ' {...elementProps[name]}$1')` with the
   * name `fragment.slice(1, fragment.search(/[\s\n]/))`.
   */
  function InsertSpread(g: string, escape: string -> string): (r: string)
    ensures FirstTagCloseAt(g, 0).None? ==> r == g
    ensures FirstTagCloseAt(g, 0).Some? ==>
      var p := FirstTagCloseAt(g, 0).value;
      var s := Spread(escape(JsSlice(g, 1, SearchSpace(g, 0))));
      |r| == |g| + |s| && r[..p] == g[..p] && r[p..p + |s|] == s && r[p + |s|..] == g[p..]
  {
    match FirstTagCloseAt(g, 0)
    case None => g
    case Some(p) => g[..p] + Spread(escape(JsSlice(g, 1, SearchSpace(g, 0)))) + g[p..]
  }

  /** `line.match(/^\s|{|}|\s$/)`. */
  predicate NeedsWrap(line: string)
  {
    (|line| > 0 && (IsSpace(line[0]) || IsSpace(line[|line| - 1]))) || '{' in line || '}' in line
  }

  function WrapLine(line: string, escape: string -> string): string
  {
    if NeedsWrap(line) then "{" + escape(line) + "}" else line
  }

  function WrapEach(lines: seq<string>, escape: string -> string): (r: seq<string>)
    ensures |r| == |lines|
    ensures forall k :: 0 <= k < |lines| ==> r[k] == WrapLine(lines[k], escape)
  {
    seq(|lines|, k requires 0 <= k < |lines| => WrapLine(lines[k], escape))
  }

  /** The `map` callback over fragments. */
  function RewriteFragment(f: string, passElementProps: bool, escape: string -> string): string
  {
    if IsTagFragment(f) then
      if JsSlice(f, 0, 4) == "<!--" then
        if JsSlice(f, 4, 4 + |AssignmentPrefix|) != AssignmentPrefix then "{/*" + JsSlice(f, 4, -3) + "*/}"
        else f
      else if |f| > 1 && f[1] == '/' then f
      else
        var g := RenameClass(f);
        if passElementProps then InsertSpread(g, escape) else g
    else Join(WrapEach(Split(f, '\n'), escape), "\n")
  }

  /** An HTML comment becomes a JSX comment with the same text. */
  lemma CommentBecomesJsx(body: string, passElementProps: bool, escape: string -> string)
    requires !StartsAt("<!--" + body + "-->", 4, AssignmentPrefix)
    ensures RewriteFragment("<!--" + body + "-->", passElementProps, escape) == "{/*" + body + "*/}"
  {
    var f := "<!--" + body + "-->";
    assert f[0] == '<' && f[..4] == "<!--";
    assert f[4..|f| - 3] == body;
    var w := JsSlice(f, 4, 4 + |AssignmentPrefix|);
    if 4 + |AssignmentPrefix| <= |f| {
      assert w == f[4..4 + |AssignmentPrefix|];
    } else {
      assert |w| < |AssignmentPrefix|;
    }
  }

  /** A comment standing for a protected assignment passes through unchanged. */
  lemma AssignmentCommentKept(rest: string, passElementProps: bool, escape: string -> string)
    ensures RewriteFragment("<!--" + AssignmentPrefix + rest, passElementProps, escape) == "<!--" + AssignmentPrefix + rest
  {
    var f := "<!--" + AssignmentPrefix + rest;
    assert f[0] == '<' && f[..4] == "<!--";
    assert f[4..4 + |AssignmentPrefix|] == AssignmentPrefix;
  }

  /** Closing tags pass through unchanged. */
  lemma ClosingTagKept(rest: string, passElementProps: bool, escape: string -> string)
    ensures RewriteFragment("</" + rest, passElementProps, escape) == "</" + rest
  {
    var f := "</" + rest;
    assert f[0] == '<' && f[1] == '/';
    NotComment(f);
  }

  /** A fragment whose second character is not `!` does not start a comment. */
  lemma NotComment(f: string)
    requires |f| > 1 && f[1] != '!'
    ensures JsSlice(f, 0, 4) != "<!--"
  {
    var w := JsSlice(f, 0, 4);
    if |f| >= 4 {
      assert w[1] == f[1];
    } else {
      assert |w| < 4;
    }
  }

  /** Without `passElementProps`, an opening tag only has its first ` class=` renamed. */
  lemma OpeningTagWithoutProps(f: string, escape: string -> string)
    requires |f| > 1 && f[0] == '<' && f[1] != '/' && f[1] != '!'
    ensures RewriteFragment(f, false, escape) == RenameClass(f)
  {
    NotComment(f);
  }

  /** With `passElementProps`, the spread goes before the tag's `>` or `/>`. */
  lemma OpeningTagWithProps(f: string, escape: string -> string)
    requires |f| > 1 && f[0] == '<' && f[1] != '/' && f[1] != '!'
    ensures RewriteFragment(f, true, escape) == InsertSpread(RenameClass(f), escape)
  {
    NotComment(f);
  }

  /** A text fragment none of whose lines needs wrapping is left as it is. */
  lemma PlainTextKept(f: string, passElementProps: bool, escape: string -> string)
    requires !IsTagFragment(f)
    requires forall k :: 0 <= k < |Split(f, '\n')| ==> !NeedsWrap(Split(f, '\n')[k])
    ensures RewriteFragment(f, passElementProps, escape) == f
  {
    var lines := Split(f, '\n');
    assert WrapEach(lines, escape) == lines;
    JoinSplit(f, '\n');
  }

  /** A text line is wrapped exactly when it needs to be. */
  lemma WrappedIff(line: string, escape: string -> string)
    ensures NeedsWrap(line) ==> WrapLine(line, escape) == "{" + escape(line) + "}"
    ensures !NeedsWrap(line) ==> WrapLine(line, escape) == line
  {
  }

  // ---------------------------------------------------------------------------
  // Indentation and the trailing blank line
  // ---------------------------------------------------------------------------

  const Pad := "          "

  /** `replace(/\n/g, '\n          ')`. */
  function IndentNewlines(s: string): (r: string)
    ensures '\n' !in s ==> r == s
    decreases |s|
  {
    if s == [] then []
    else (if s[0] == '\n' then "\n" + Pad else [s[0]]) + IndentNewlines(s[1..])
  }

  /** Indenting keeps every line and puts ten spaces in front of each line after the first. */
  lemma {:induction false} IndentLines(s: string)
    ensures IndentNewlines(s) == Join(Split(s, '\n'), "\n" + Pad)
    decreases |s|
  {
    if s != [] {
      IndentLines(s[1..]);
      var rest := Split(s[1..], '\n');
      if s[0] != '\n' {
        if |rest| > 1 {
          assert Join(rest, "\n" + Pad) == rest[0] + ("\n" + Pad) + Join(rest[1..], "\n" + Pad);
          var parts := Split(s, '\n');
          assert parts[1..] == rest[1..];
        }
      }
    }
  }

  /** Indent, then drop the trailing blank line. */
  function Tidy(s: string): (r: string)
    ensures forall q :: 0 <= q < |r| ==> !BlankTailAt(r, q)
  {
    TrimLeavesNoBlankTail(IndentNewlines(s));
    TrimTrailingBlank(IndentNewlines(s))
  }

  // ---------------------------------------------------------------------------
  // The whole conversion
  // ---------------------------------------------------------------------------

  /** The parts of the conversion that are outside the model. */
  datatype Externals<!V> = Externals(
    walk: string -> seq<Visit>,
    propertyPattern: Matcher,
    assignmentPattern: Matcher,
    digest: string -> string,
    render: string -> string,
    escape: string -> string,
    formatImport: (string, string) -> string,
    formatStatic: (string, V) -> string,
    formatModule: (Config, string, string, string) -> string)

  /** The JSX-property cache: default replacers. */
  function PropertyCache<V>(ext: Externals<V>): CacheConfig
  {
    DefaultConfig(ext.propertyPattern, ext.digest)
  }

  /** The identity of an assignment match is an HTML comment carrying the hash. */
  function AssignmentIdentity(identityHash: string, matched: string, groups: seq<string>): string
  {
    "<!--" + AssignmentPrefix + identityHash + "-->"
  }

  function AssignmentCache<V>(ext: Externals<V>): CacheConfig
  {
    CacheConfig(ext.assignmentPattern, KeepFirstGroup, AssignmentIdentity, ext.digest)
  }

  /** Every assignment identity is a comment that the fragment rewrite keeps as it is. */
  lemma AssignmentIdentityKept<V>(ext: Externals<V>, text: string, groups: seq<string>, passElementProps: bool)
    ensures var id := Identity(AssignmentCache(ext), text, groups);
      RewriteFragment(id, passElementProps, ext.escape) == id
  {
    AssignmentCommentKept(ext.digest(text) + "-->", passElementProps, ext.escape);
    assert "<!--" + AssignmentPrefix + ext.digest(text) + "-->" == "<!--" + AssignmentPrefix + (ext.digest(text) + "-->");
  }

  /** The rendered HTML, or the placeholder when nothing was rendered. */
  function RenderOrPlaceholder(html: string): (r: string)
    ensures r != ""
  {
    if html == "" then NoInput else html
  }

  /** The rewritten fragments of the HTML, joined. */
  function RewriteAll(fragments: seq<string>, passElementProps: bool, escape: string -> string): string
    decreases |fragments|
  {
    if fragments == [] then ""
    else RewriteFragment(fragments[0], passElementProps, escape) + RewriteAll(fragments[1..], passElementProps, escape)
  }

  /** The JSX for the rendered HTML, before the caches are unloaded. */
  function HtmlJsx<V>(ext: Externals<V>, config: Config, html: string): string
  {
    var cuts := DropRepeats(Sort([0] + AllCuts(html, Distinct(ext.walk(html), {}))));
    Tidy(RewriteAll(Segments(html, cuts), config.passElementProps, ext.escape))
  }

  /** The JSX body the conversion produces for a Markdown body. */
  function ConvertJsx<V>(ext: Externals<V>, config: Config, markdown: string): string
  {
    var spliced := SpliceAll(PropertyCache(ext), Spliced(markdown, 0, EmptyTable), Spans(ext.walk(markdown)));
    SpliceKeepsWellFormed(PropertyCache(ext), Spliced(markdown, 0, EmptyTable), Spans(ext.walk(markdown)));
    var assignments := Record(EmptyTable, Scan(AssignmentCache(ext), spliced.text));
    RecordContains(EmptyTable, Scan(AssignmentCache(ext), spliced.text));
    var html := RenderOrPlaceholder(ext.render(LoadText(AssignmentCache(ext), spliced.text)));
    UnloadTextAsWritten(UnloadTextAsWritten(HtmlJsx(ext, config, html), assignments), spliced.table)
  }

  /** The rewrite loop over fragments. */
  method RewriteFragments(fragments: seq<string>, passElementProps: bool, escape: string -> string) returns (jsx: string)
    ensures jsx == RewriteAll(fragments, passElementProps, escape)
  {
    jsx := "";
    var i := |fragments|;
    while i > 0
      invariant 0 <= i <= |fragments|
      invariant jsx == RewriteAll(fragments[i..], passElementProps, escape)
    {
      i := i - 1;
      assert fragments[i..][1..] == fragments[i + 1..];
      jsx := RewriteFragment(fragments[i], passElementProps, escape) + jsx;
    }
  }

  /**
   * The default export: the module text, or the error for a reserved
   * static. The assignment cache is unloaded before the property cache.
   */
  method ConvertSource<V>(ext: Externals<V>, config: Config, source: FrontMatter<V>) returns (r: Result<string>)
    ensures r.Err? <==> exists j :: 0 <= j < |source.statics| && source.statics[j].0 in Reserved(config.passElementProps)
    ensures r.Err? ==> r.message == FormatStatics(source.statics, config.passElementProps, ext.formatStatic).message
    ensures r.Ok? ==> r.value == ext.formatModule(
      config,
      Concat(ImportList(config, source.importMap, ext.formatImport)),
      Concat(FormatStatics(source.statics, config.passElementProps, ext.formatStatic).value),
      ConvertJsx(ext, config, source.body))
  {
    var imports := CollectImports(config, source.importMap, ext.formatImport);
    var statics := FormatStatics(source.statics, config.passElementProps, ext.formatStatic);
    if statics.Err? {
      return Err(statics.message);
    }
    var markdown := source.body;
    var spans := CollectSpans(ext.walk(markdown));
    var propertyCache := new StringReplacementCache(PropertyCache(ext));
    var sansProperties := ProtectProperties(propertyCache, markdown, spans);
    var assignmentCache := new StringReplacementCache(AssignmentCache(ext));
    var sansAssignments := assignmentCache.Load(sansProperties);
    var html := RenderOrPlaceholder(ext.render(sansAssignments));
    var tags := CollectTags(ext.walk(html));
    var offsets := CollectOffsets(html, tags);
    var fragments := Segments(html, DropRepeats(Sort(offsets)));
    var jsx := RewriteFragments(fragments, config.passElementProps, ext.escape);
    jsx := Tidy(jsx);
    jsx := assignmentCache.Unload(jsx);
    jsx := propertyCache.Unload(jsx);
    r := Ok(ext.formatModule(config, Concat(imports), Concat(statics.value), jsx));
  }
}
