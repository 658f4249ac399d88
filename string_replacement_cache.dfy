/**
 * The string replacement cache: `load` swaps every match of a pattern for an
 * identity derived from a hash of the matched text and remembers
 * `identity -> payload`; `unload` swaps every identity back and empties the
 * table.
 *
 * The pattern is abstract: a `Matcher` is what `RegExp.prototype.exec` of a
 * global expression reports when searching from a given `lastIndex`. The
 * hash (`hash(algorithm)...digest('hex')`) is an arbitrary function of the
 * matched text.
 */
module ReplacementCache {

  import opened Strings

  /** One match: its span in the searched text and its capture groups. */
  datatype Match = Match(start: nat, end: nat, groups: seq<string>)

  /** The leftmost match at or after the search position, if any. */
  type Matcher = (string, nat) -> Option<Match>

  /** The constructor's arguments; `digest` stands for hashing with `algorithm`. */
  datatype CacheConfig = CacheConfig(
    expression: Matcher,
    outputReplacer: (string, seq<string>) -> string,
    identityReplacer: (string, string, seq<string>) -> string,
    digest: string -> string)

  /** The default output replacer: the payload is the match itself. */
  const KeepMatch: (string, seq<string>) -> string := (matched: string, groups: seq<string>) => matched

  /** The default identity replacer: the identity is the hash itself. */
  const KeepHash: (string, string, seq<string>) -> string :=
    (identityHash: string, matched: string, groups: seq<string>) => identityHash

  /** The output replacer `(match, value) => value`: the payload is the first group. */
  function KeepFirstGroup(matched: string, groups: seq<string>): (r: string)
    ensures |groups| > 0 ==> r == groups[0]
  {
    if |groups| > 0 then groups[0] else "undefined"
  }

  /** A cache built with only a pattern and a hash, as the source's default arguments give. */
  function DefaultConfig(expression: Matcher, digest: string -> string): (c: CacheConfig)
    ensures forall m, g :: c.outputReplacer(m, g) == m
    ensures forall h, m, g :: c.identityReplacer(h, m, g) == h
  {
    CacheConfig(expression, KeepMatch, KeepHash, digest)
  }

  function Identity(c: CacheConfig, text: string, groups: seq<string>): string
  {
    c.identityReplacer(c.digest(text), text, groups)
  }

  function Payload(c: CacheConfig, text: string, groups: seq<string>): string
  {
    c.outputReplacer(text, groups)
  }

  // ---------------------------------------------------------------------------
  // What `load` produces, as a sequence of pieces
  // ---------------------------------------------------------------------------

  /** Loaded text is unmatched text alternating with identities, each with its payload. */
  datatype Piece = Text(text: string) | Slot(identity: string, payload: string)

  /**
   * The pieces of `s[last..]` when the search resumes at `from`. A match
   * reported outside the searched range ends the search; after an empty
   * match the search resumes one position later, as `String.prototype.replace`
   * does.
   */
  function ScanFrom(c: CacheConfig, s: string, from: nat, last: nat): seq<Piece>
    requires last <= from <= |s|
    decreases |s| - from
  {
    match c.expression(s, from)
    case None => [Text(s[last..])]
    case Some(m) =>
      if from <= m.start <= m.end <= |s| then
        var text := s[m.start..m.end];
        [Text(s[last..m.start]), Slot(Identity(c, text, m.groups), Payload(c, text, m.groups))]
        + (if Resume(m) <= |s| then ScanFrom(c, s, Resume(m), m.end) else [])
      else [Text(s[last..])]
  }

  /** Where the search goes on after a match: one position later after an empty one. */
  function Resume(m: Match): (next: nat)
    ensures m.end <= next <= m.end + 1 && (next == m.end <==> m.start != m.end)
  {
    if m.start == m.end then m.end + 1 else m.end
  }

  /** The pieces after a match, or none when the search has run off the end. */
  function Rest(c: CacheConfig, s: string, m: Match): seq<Piece>
    requires m.end <= |s|
  {
    if Resume(m) <= |s| then ScanFrom(c, s, Resume(m), m.end) else []
  }

  /** A match in range: the text before it, its slot, then the rest of the search. */
  lemma ScanMatched(c: CacheConfig, s: string, from: nat, last: nat, m: Match)
    requires last <= from <= |s|
    requires c.expression(s, from) == Some(m) && from <= m.start <= m.end <= |s|
    ensures ScanFrom(c, s, from, last)
      == [Text(s[last..m.start]), Slot(Identity(c, s[m.start..m.end], m.groups), Payload(c, s[m.start..m.end], m.groups))]
         + Rest(c, s, m)
  {
  }

  function Scan(c: CacheConfig, s: string): seq<Piece>
  {
    ScanFrom(c, s, 0, 0)
  }

  /** A slot shows its payload once its identity has been restored, else the identity. */
  function Shown(p: Piece, done: set<string>, entries: map<string, string>): string
  {
    match p
    case Text(t) => t
    case Slot(k, _) => if k in done && k in entries then entries[k] else k
  }

  function Render(ps: seq<Piece>, done: set<string>, entries: map<string, string>): string
    decreases |ps|
  {
    if ps == [] then "" else Shown(ps[0], done, entries) + Render(ps[1..], done, entries)
  }

  /** The text every slot's payload stands for. */
  function Payloads(ps: seq<Piece>): string
    decreases |ps|
  {
    if ps == [] then ""
    else (match ps[0] case Text(t) => t case Slot(_, v) => v) + Payloads(ps[1..])
  }

  /** The string `load` returns. */
  function LoadText(c: CacheConfig, s: string): string
  {
    Render(Scan(c, s), {}, map[])
  }

  predicate IsSlot(ps: seq<Piece>, k: string)
  {
    exists i :: 0 <= i < |ps| && ps[i].Slot? && ps[i].identity == k
  }

  /** Content addressing without collisions: one identity never stands for two payloads. */
  predicate Consistent(ps: seq<Piece>)
  {
    forall i, j ::
      (0 <= i < |ps| && 0 <= j < |ps| && ps[i].Slot? && ps[j].Slot? && ps[i].identity == ps[j].identity)
      ==> ps[i].payload == ps[j].payload
  }

  // ---------------------------------------------------------------------------
  // The table: `_cache`, whose key order is `Object.keys` order
  // ---------------------------------------------------------------------------

  datatype Table = Table(order: seq<string>, entries: map<string, string>)

  const EmptyTable := Table([], map[])

  predicate NoDup(s: seq<string>)
  {
    forall i, j :: 0 <= i < j < |s| ==> s[i] != s[j]
  }

  ghost predicate WellFormed(t: Table)
  {
    NoDup(t.order) && forall k :: k in t.entries <==> k in t.order
  }

  /** `_cache[identity] = payload`: a new key goes last, an existing key keeps its place. */
  function Put(t: Table, k: string, v: string): (r: Table)
    ensures WellFormed(t) ==> WellFormed(r)
    ensures r.entries == t.entries[k := v]
  {
    Table(if k in t.entries then t.order else t.order + [k], t.entries[k := v])
  }

  /** The table after recording every slot of `ps`, left to right. */
  function Record(t: Table, ps: seq<Piece>): Table
    decreases |ps|
  {
    if ps == [] then t
    else Record(if ps[0].Slot? then Put(t, ps[0].identity, ps[0].payload) else t, ps[1..])
  }

  // ---------------------------------------------------------------------------
  // What `unload` does
  // ---------------------------------------------------------------------------

  /**
   * `s.replace(new RegExp(escaped(key), 'g'), rep)` read literally: every
   * leftmost, non-overlapping occurrence of `key` becomes `rep`. An empty key
   * matches before every character and at the end.
   */
  function ReplaceAll(s: string, key: string, rep: string): string
    decreases |s|
  {
    if |key| == 0 then (if |s| == 0 then rep else rep + [s[0]] + ReplaceAll(s[1..], key, rep))
    else if |s| < |key| then s
    else if s[..|key|] == key then rep + ReplaceAll(s[|key|..], key, rep)
    else [s[0]] + ReplaceAll(s[1..], key, rep)
  }

  function UnloadKeys(body: string, keys: seq<string>, entries: map<string, string>): string
    requires forall i :: 0 <= i < |keys| ==> keys[i] in entries
    decreases |keys|
  {
    if keys == [] then body
    else UnloadKeys(ReplaceAll(body, keys[0], entries[keys[0]]), keys[1..], entries)
  }

  /** The string `unload` returns: each identity in key order, replaced everywhere. */
  function UnloadText(body: string, t: Table): string
    requires WellFormed(t)
  {
    UnloadKeys(body, t.order, t.entries)
  }

  /**
   * No occurrence of `key` starts inside a piece other than a slot for `key`
   * (occurrences may not straddle a piece boundary either).
   */
  predicate Clean(ps: seq<Piece>, done: set<string>, entries: map<string, string>, key: string)
    decreases |ps|
  {
    ps == [] ||
    (&& ((ps[0].Slot? && ps[0].identity == key) ||
         var here := Shown(ps[0], done, entries);
         var text := here + Render(ps[1..], done, entries);
         forall i :: 0 <= i < |here| ==> !StartsAt(text, i, key))
     && Clean(ps[1..], done, entries, key))
  }

  predicate Stages(ps: seq<Piece>, done: set<string>, keys: seq<string>, entries: map<string, string>)
    decreases |keys|
  {
    keys == [] ||
    (&& |keys[0]| > 0 && keys[0] in entries && keys[0] !in done
     && Clean(ps, done, entries, keys[0])
     && Stages(ps, done + {keys[0]}, keys[1..], entries))
  }

  /**
   * The condition under which unloading is exact: when each identity's turn
   * comes, it is non-empty and occurs in the text only where `load` put it.
   */
  predicate UnloadSafe(ps: seq<Piece>, t: Table)
  {
    Stages(ps, {}, t.order, t.entries)
  }

  // ---------------------------------------------------------------------------
  // The escaped identity is a literal pattern
  // ---------------------------------------------------------------------------

  /** The characters `unload` escapes before building its `RegExp`. */
  predicate IsMeta(c: char)
  {
    c in "-[]/{}()*+?.\\^$|"
  }

  /** `identity.replace(/[\-\[\]\/\{\}\(\)\*\+\?\.\\\^\$\|]/g, '\\$&')`. */
  function EscapeRegExp(s: string): string
    decreases |s|
  {
    if s == [] then ""
    else (if IsMeta(s[0]) then ['\\', s[0]] else [s[0]]) + EscapeRegExp(s[1..])
  }

  /** A pattern source with no special character outside a backslash escape. */
  predicate IsLiteralSource(p: string)
    decreases |p|
  {
    p == [] ||
    (if p[0] == '\\' then |p| >= 2 && IsLiteralSource(p[2..])
     else !IsMeta(p[0]) && IsLiteralSource(p[1..]))
  }

  /** The string a literal pattern source matches. */
  function LiteralOf(p: string): string
    decreases |p|
  {
    if p == [] then ""
    else if p[0] == '\\' && |p| >= 2 then [p[1]] + LiteralOf(p[2..])
    else [p[0]] + LiteralOf(p[1..])
  }

  /** The escaped identity is a literal pattern that matches exactly the identity. */
  lemma {:induction false} EscapeIsLiteral(s: string)
    ensures IsLiteralSource(EscapeRegExp(s))
    ensures LiteralOf(EscapeRegExp(s)) == s
    decreases |s|
  {
    if s != [] {
      EscapeIsLiteral(s[1..]);
      var head := if IsMeta(s[0]) then ['\\', s[0]] else [s[0]];
      var e := head + EscapeRegExp(s[1..]);
      if IsMeta(s[0]) {
        assert e[2..] == EscapeRegExp(s[1..]);
      } else {
        assert e[1..] == EscapeRegExp(s[1..]);
      }
      assert s == [s[0]] + s[1..];
    }
  }

  // ---------------------------------------------------------------------------
  // Properties of load
  // ---------------------------------------------------------------------------

  lemma {:induction false} PayloadsConcat(a: seq<Piece>, b: seq<Piece>)
    ensures Payloads(a + b) == Payloads(a) + Payloads(b)
    decreases |a|
  {
    if a == [] {
      assert a + b == b;
    } else {
      assert (a + b)[0] == a[0] && (a + b)[1..] == a[1..] + b;
      PayloadsConcat(a[1..], b);
    }
  }

  lemma {:induction false} RenderConcat(a: seq<Piece>, b: seq<Piece>, done: set<string>, entries: map<string, string>)
    ensures Render(a + b, done, entries) == Render(a, done, entries) + Render(b, done, entries)
    decreases |a|
  {
    if a == [] {
      assert a + b == b;
    } else {
      assert (a + b)[0] == a[0] && (a + b)[1..] == a[1..] + b;
      RenderConcat(a[1..], b, done, entries);
    }
  }

  /** With the default output replacer, the payloads spell the scanned text back. */
  lemma {:induction false} ScanPayloads(c: CacheConfig, s: string, from: nat, last: nat)
    requires last <= from <= |s|
    requires forall m, g :: c.outputReplacer(m, g) == m
    ensures Payloads(ScanFrom(c, s, from, last)) == s[last..]
    decreases |s| - from
  {
    match c.expression(s, from)
    case None =>
    case Some(m) =>
      if from <= m.start <= m.end <= |s| {
        ScanMatched(c, s, from, last, m);
        var text := s[m.start..m.end];
        var head := [Text(s[last..m.start]), Slot(Identity(c, text, m.groups), Payload(c, text, m.groups))];
        PayloadsConcat(head, Rest(c, s, m));
        HeadPayloads(c, s, last, m);
        if Resume(m) <= |s| {
          ScanPayloads(c, s, Resume(m), m.end);
        }
        Split3(s, last, m.start, m.end);
      }
  }

  /** The payloads of a match's head: the text before it, then the matched text. */
  lemma HeadPayloads(c: CacheConfig, s: string, last: nat, m: Match)
    requires forall m, g :: c.outputReplacer(m, g) == m
    requires last <= m.start <= m.end <= |s|
    ensures var text := s[m.start..m.end];
      Payloads([Text(s[last..m.start]), Slot(Identity(c, text, m.groups), Payload(c, text, m.groups))])
      == s[last..m.start] + text
  {
    var text := s[m.start..m.end];
    var head := [Text(s[last..m.start]), Slot(Identity(c, text, m.groups), Payload(c, text, m.groups))];
    assert Payload(c, text, m.groups) == text;
    assert head[1..] == [head[1]] && head[1..][1..] == [];
    assert Payloads(head[1..]) == text + "" == text;
  }

  /** Text with no match is returned unchanged and records nothing. */
  lemma NoMatchUnchanged(c: CacheConfig, s: string, t: Table)
    requires c.expression(s, 0).None?
    ensures LoadText(c, s) == s
    ensures Record(t, Scan(c, s)) == t
  {
    assert Scan(c, s) == [Text(s)];
    assert Render([Text(s)], {}, map[]) == s + Render([], {}, map[]);
  }

  /** Every identity recorded by `load` is a key of the table afterwards, and old keys stay in order. */
  lemma {:induction false} RecordContains(t: Table, ps: seq<Piece>)
    requires WellFormed(t)
    ensures WellFormed(Record(t, ps))
    ensures t.order <= Record(t, ps).order
    ensures forall k :: k in t.entries ==> k in Record(t, ps).entries
    ensures forall i :: 0 <= i < |ps| && ps[i].Slot? ==> ps[i].identity in Record(t, ps).entries
    decreases |ps|
  {
    if ps != [] {
      var t' := if ps[0].Slot? then Put(t, ps[0].identity, ps[0].payload) else t;
      RecordContains(t', ps[1..]);
      forall i | 0 <= i < |ps| && ps[i].Slot? ensures ps[i].identity in Record(t, ps).entries {
        if i > 0 {
          assert ps[i] == ps[1..][i - 1];
        }
      }
    }
  }

  /** A key not re-recorded keeps its value. */
  lemma {:induction false} RecordKeeps(t: Table, ps: seq<Piece>, k: string)
    requires k in t.entries
    requires forall i :: 0 <= i < |ps| && ps[i].Slot? ==> ps[i].identity != k
    ensures k in Record(t, ps).entries && Record(t, ps).entries[k] == t.entries[k]
    decreases |ps|
  {
    if ps != [] {
      var t' := if ps[0].Slot? then Put(t, ps[0].identity, ps[0].payload) else t;
      forall i | 0 <= i < |ps[1..]| && ps[1..][i].Slot? ensures ps[1..][i].identity != k {
        assert ps[1..][i] == ps[i + 1];
      }
      RecordKeeps(t', ps[1..], k);
    }
  }

  /** Repeated loads accumulate: recording `a` then `b` is recording `a + b`. */
  lemma {:induction false} RecordConcat(t: Table, a: seq<Piece>, b: seq<Piece>)
    ensures Record(Record(t, a), b) == Record(t, a + b)
    decreases |a|
  {
    if a == [] {
      assert a + b == b;
    } else {
      var t' := if a[0].Slot? then Put(t, a[0].identity, a[0].payload) else t;
      RecordConcat(t', a[1..], b);
      assert (a + b)[0] == a[0] && (a + b)[1..] == a[1..] + b;
    }
  }

  /** With content addressing, every slot's identity maps to that slot's payload. */
  lemma {:induction false} RecordAgrees(t: Table, ps: seq<Piece>)
    requires Consistent(ps)
    ensures forall i :: 0 <= i < |ps| && ps[i].Slot? ==>
      ps[i].identity in Record(t, ps).entries && Record(t, ps).entries[ps[i].identity] == ps[i].payload
    decreases |ps|
  {
    if ps != [] {
      var t' := if ps[0].Slot? then Put(t, ps[0].identity, ps[0].payload) else t;
      var rest := ps[1..];
      assert Consistent(rest) by {
        forall i, j | 0 <= i < |rest| && 0 <= j < |rest| && rest[i].Slot? && rest[j].Slot?
            && rest[i].identity == rest[j].identity
          ensures rest[i].payload == rest[j].payload
        {
          assert rest[i] == ps[i + 1] && rest[j] == ps[j + 1];
        }
      }
      RecordAgrees(t', rest);
      if ps[0].Slot? {
        var k := ps[0].identity;
        if j :| 0 <= j < |rest| && rest[j].Slot? && rest[j].identity == k {
          assert rest[j] == ps[j + 1];
        } else {
          RecordKeeps(t', rest, k);
        }
      }
      forall i | 0 <= i < |ps| && ps[i].Slot?
        ensures ps[i].identity in Record(t, ps).entries
        ensures Record(t, ps).entries[ps[i].identity] == ps[i].payload
      {
        if i > 0 {
          assert ps[i] == rest[i - 1];
        }
      }
    }
  }

  /** Content addressing: equal matched texts (and groups) always give equal identities and payloads. */
  lemma ContentAddressed(c: CacheConfig, s: string, from: nat, last: nat)
    requires last <= from <= |s|
    requires forall a, b :: c.digest(a) == c.digest(b) ==> a == b
    requires forall h, m, g :: c.identityReplacer(h, m, g) == h
    requires forall m, g :: c.outputReplacer(m, g) == m
    ensures Consistent(ScanFrom(c, s, from, last))
  {
    var ps := ScanFrom(c, s, from, last);
    forall i, j | 0 <= i < |ps| && 0 <= j < |ps| && ps[i].Slot? && ps[j].Slot?
        && ps[i].identity == ps[j].identity
      ensures ps[i].payload == ps[j].payload
    {
      SlotShape(c, s, from, last, i);
      SlotShape(c, s, from, last, j);
    }
  }

  /** Every slot of a scan is the identity and payload of some text. */
  lemma {:induction false} SlotShape(c: CacheConfig, s: string, from: nat, last: nat, i: nat)
    requires last <= from <= |s|
    requires i < |ScanFrom(c, s, from, last)| && ScanFrom(c, s, from, last)[i].Slot?
    ensures exists text, groups :: ScanFrom(c, s, from, last)[i] == Slot(Identity(c, text, groups), Payload(c, text, groups))
    decreases |s| - from
  {
    match c.expression(s, from)
    case None =>
    case Some(m) =>
      if from <= m.start <= m.end <= |s| {
        ScanMatched(c, s, from, last, m);
        if i >= 2 {
          SlotShape(c, s, Resume(m), m.end, i - 2);
        }
      }
  }

  // ---------------------------------------------------------------------------
  // Properties of unload
  // ---------------------------------------------------------------------------

  /** Text that starts no occurrence of the key before `t` is copied through. */
  lemma {:induction false} ReplaceAllSkip(g: string, t: string, key: string, rep: string)
    requires |key| > 0
    requires forall i :: 0 <= i < |g| ==> !StartsAt(g + t, i, key)
    ensures ReplaceAll(g + t, key, rep) == g + ReplaceAll(t, key, rep)
    decreases |g|
  {
    if g == [] {
      assert g + t == t;
    } else {
      SkipFirst(g, t, key, rep);
      CleanAfterFirst(g, t, key);
      ReplaceAllSkip(g[1..], t, key, rep);
      assert g == [g[0]] + g[1..];
      Assoc([g[0]], g[1..], ReplaceAll(t, key, rep));
    }
  }

  /** No occurrence at the front: the first character is copied. */
  lemma SkipFirst(g: string, t: string, key: string, rep: string)
    requires |key| > 0 && |g| > 0 && !StartsAt(g + t, 0, key)
    ensures ReplaceAll(g + t, key, rep) == [g[0]] + ReplaceAll(g[1..] + t, key, rep)
  {
    var s := g + t;
    assert s[0] == g[0] && s[1..] == g[1..] + t;
    if |s| < |key| {
      assert ReplaceAll(s, key, rep) == s;
      assert ReplaceAll(s[1..], key, rep) == s[1..];
    } else {
      assert s[..|key|] != key;
    }
  }

  /** Dropping the first character keeps the rest of `g` free of occurrences. */
  lemma CleanAfterFirst(g: string, t: string, key: string)
    requires |g| > 0
    requires forall i :: 0 <= i < |g| ==> !StartsAt(g + t, i, key)
    ensures forall i :: 0 <= i < |g[1..]| ==> !StartsAt(g[1..] + t, i, key)
  {
    var s := g + t;
    forall i | 0 <= i < |g[1..]| ensures !StartsAt(g[1..] + t, i, key) {
      assert !StartsAt(s, i + 1, key);
      if i + |key| <= |g[1..] + t| {
        assert (g[1..] + t)[i..i + |key|] == s[i + 1..i + 1 + |key|];
      }
    }
  }

  /** Text with no occurrence of the key is returned unchanged. */
  lemma NoOccurrenceUnchanged(s: string, key: string, rep: string)
    requires |key| > 0
    requires forall i :: 0 <= i < |s| ==> !StartsAt(s, i, key)
    ensures ReplaceAll(s, key, rep) == s
  {
    assert s + "" == s;
    ReplaceAllSkip(s, "", key, rep);
    assert ReplaceAll("", key, rep) == "";
  }

  /** One step of unload restores exactly the slots of its key. */
  lemma {:induction false} ReplaceRendered(ps: seq<Piece>, done: set<string>, entries: map<string, string>, key: string)
    requires |key| > 0 && key in entries && key !in done
    requires Clean(ps, done, entries, key)
    ensures ReplaceAll(Render(ps, done, entries), key, entries[key]) == Render(ps, done + {key}, entries)
    decreases |ps|
  {
    if ps != [] {
      var rep := entries[key];
      var rest := Render(ps[1..], done, entries);
      ReplaceRendered(ps[1..], done, entries, key);
      if ps[0].Slot? && ps[0].identity == key {
        var s := key + rest;
        assert s[..|key|] == key && s[|key|..] == rest;
      } else {
        var here := Shown(ps[0], done, entries);
        ReplaceAllSkip(here, rest, key, rep);
        assert Shown(ps[0], done + {key}, entries) == here;
      }
    }
  }

  /** Unloading the keys in order restores every slot whose identity is among them. */
  lemma {:induction false} UnloadRendered(ps: seq<Piece>, done: set<string>, keys: seq<string>, entries: map<string, string>)
    requires Stages(ps, done, keys, entries)
    ensures forall i :: 0 <= i < |keys| ==> keys[i] in entries
    ensures UnloadKeys(Render(ps, done, entries), keys, entries) == Render(ps, done + (set k | k in keys), entries)
    decreases |keys|
  {
    if keys == [] {
      assert done + (set k | k in keys) == done;
    } else {
      ReplaceRendered(ps, done, entries, keys[0]);
      UnloadRendered(ps, done + {keys[0]}, keys[1..], entries);
      assert UnloadKeys(Render(ps, done, entries), keys, entries)
          == UnloadKeys(Render(ps, done + {keys[0]}, entries), keys[1..], entries);
      assert done + {keys[0]} + (set k | k in keys[1..]) == done + (set k | k in keys);
    }
  }

  /** Once every slot's identity is restored and maps to its payload, the text is the payloads. */
  lemma {:induction false} RenderRestored(ps: seq<Piece>, done: set<string>, entries: map<string, string>)
    requires forall i :: 0 <= i < |ps| && ps[i].Slot? ==>
      ps[i].identity in done && ps[i].identity in entries && entries[ps[i].identity] == ps[i].payload
    ensures Render(ps, done, entries) == Payloads(ps)
    decreases |ps|
  {
    if ps != [] {
      forall i | 0 <= i < |ps[1..]| && ps[1..][i].Slot?
        ensures ps[1..][i].identity in done && ps[1..][i].identity in entries
        ensures entries[ps[1..][i].identity] == ps[1..][i].payload
      {
        assert ps[1..][i] == ps[i + 1];
      }
      RenderRestored(ps[1..], done, entries);
    }
  }

  /** Before any identity is restored, the table's contents do not matter. */
  lemma {:induction false} RenderNothingDone(ps: seq<Piece>, entries: map<string, string>)
    ensures Render(ps, {}, entries) == Render(ps, {}, map[])
    decreases |ps|
  {
    if ps != [] {
      RenderNothingDone(ps[1..], entries);
    }
  }

  /**
   * Unloading what a fresh cache loaded puts every match's payload in its
   * place, provided identities do not collide with one another
   * (`Consistent`) nor with the document (`UnloadSafe`).
   */
  lemma UnloadGivesPayloads(c: CacheConfig, s: string)
    requires Consistent(Scan(c, s))
    requires UnloadSafe(Scan(c, s), Record(EmptyTable, Scan(c, s)))
    ensures WellFormed(Record(EmptyTable, Scan(c, s)))
    ensures UnloadText(LoadText(c, s), Record(EmptyTable, Scan(c, s))) == Payloads(Scan(c, s))
  {
    var ps := Scan(c, s);
    var t := Record(EmptyTable, ps);
    RecordContains(EmptyTable, ps);
    RecordAgrees(EmptyTable, ps);
    RenderNothingDone(ps, t.entries);
    UnloadRendered(ps, {}, t.order, t.entries);
    var done := {} + (set k | k in t.order);
    forall i | 0 <= i < |ps| && ps[i].Slot? ensures ps[i].identity in done {
      assert ps[i].identity in t.entries;
    }
    RenderRestored(ps, done, t.entries);
    assert LoadText(c, s) == Render(ps, {}, t.entries);
  }

  /**
   * The round trip: for a fresh cache with the default output replacer,
   * `unload(load(s)) == s`, under the same conditions.
   */
  lemma UnloadAfterLoad(c: CacheConfig, s: string)
    requires forall m, g :: c.outputReplacer(m, g) == m
    requires Consistent(Scan(c, s))
    requires UnloadSafe(Scan(c, s), Record(EmptyTable, Scan(c, s)))
    ensures WellFormed(Record(EmptyTable, Scan(c, s)))
    ensures UnloadText(LoadText(c, s), Record(EmptyTable, Scan(c, s))) == s
  {
    UnloadGivesPayloads(c, s);
    ScanPayloads(c, s, 0, 0);
  }

  /** One step of the search: the text before the match, then the match's identity. */
  lemma ScanRenders(c: CacheConfig, s: string, from: nat, last: nat, m: Match)
    requires last <= from <= |s|
    requires c.expression(s, from) == Some(m) && from <= m.start <= m.end <= |s|
    ensures Render(ScanFrom(c, s, from, last), {}, map[])
      == s[last..m.start] + Identity(c, s[m.start..m.end], m.groups) + Render(Rest(c, s, m), {}, map[])
  {
    ScanMatched(c, s, from, last, m);
    var text := s[m.start..m.end];
    RenderHead(s[last..m.start], Identity(c, text, m.groups), Payload(c, text, m.groups), Rest(c, s, m));
  }

  /** Before any restore, a gap and a slot render as the gap and the identity. */
  lemma RenderHead(gap: string, k: string, v: string, rest: seq<Piece>)
    ensures Render([Text(gap), Slot(k, v)] + rest, {}, map[]) == gap + k + Render(rest, {}, map[])
  {
    var ps := [Text(gap), Slot(k, v)] + rest;
    assert ps[1..] == [Slot(k, v)] + rest && ps[1..][1..] == rest;
  }

  /** One step of the search records the match's identity and payload. */
  lemma ScanRecords(c: CacheConfig, s: string, from: nat, last: nat, m: Match, t: Table)
    requires last <= from <= |s|
    requires c.expression(s, from) == Some(m) && from <= m.start <= m.end <= |s|
    ensures var text := s[m.start..m.end];
      Record(t, ScanFrom(c, s, from, last))
      == Record(Put(t, Identity(c, text, m.groups), Payload(c, text, m.groups)), Rest(c, s, m))
  {
    ScanMatched(c, s, from, last, m);
    var ps := ScanFrom(c, s, from, last);
    assert ps[1..] == [ps[1]] + Rest(c, s, m) && ps[1..][1..] == Rest(c, s, m);
  }

  /** The search ends: the rest of the text is one unmatched piece. */
  lemma ScanStop(c: CacheConfig, s: string, from: nat, last: nat, t: Table)
    requires last <= from <= |s|
    requires c.expression(s, from).None? || !(from <= c.expression(s, from).value.start
      <= c.expression(s, from).value.end <= |s|)
    ensures Render(ScanFrom(c, s, from, last), {}, map[]) == s[last..]
    ensures Record(t, ScanFrom(c, s, from, last)) == t
  {
    assert ScanFrom(c, s, from, last) == [Text(s[last..])];
    assert Render([Text(s[last..])], {}, map[]) == s[last..] + Render([], {}, map[]);
  }

  // ---------------------------------------------------------------------------
  // Unload as written: the payload is a replacement *pattern*
  // ---------------------------------------------------------------------------

  /**
   * How `String.prototype.replace` reads a replacement string: `$$` is one
   * `$`, `$&` the match, `` $` `` the text before it and `$'` the text after
   * it. The unloading expression has no capture groups, so `$1` and `$<`
   * stay literal.
   */
  function Expand(t: string, matched: string, before: string, after: string): (r: string)
    ensures '$' !in t ==> r == t
    decreases |t|
  {
    if |t| == 0 then ""
    else if t[0] == '$' && |t| >= 2 && t[1] == '$' then "$" + Expand(t[2..], matched, before, after)
    else if t[0] == '$' && |t| >= 2 && t[1] == '&' then matched + Expand(t[2..], matched, before, after)
    else if t[0] == '$' && |t| >= 2 && t[1] == '`' then before + Expand(t[2..], matched, before, after)
    else if t[0] == '$' && |t| >= 2 && t[1] == '\'' then after + Expand(t[2..], matched, before, after)
    else [t[0]] + Expand(t[1..], matched, before, after)
  }

  /**
   * `s.replace(new RegExp(escaped(key), 'g'), rep)` on the part `t` of `s`
   * that follows `before`, with `rep` expanded at each match.
   */
  function ReplaceAsWritten(before: string, t: string, key: string, rep: string): string
    decreases |t|
  {
    if |key| == 0 then
      (if |t| == 0 then Expand(rep, "", before, "")
       else Expand(rep, "", before, t) + [t[0]] + ReplaceAsWritten(before + [t[0]], t[1..], key, rep))
    else if |t| < |key| then t
    else if t[..|key|] == key then Expand(rep, key, before, t[|key|..]) + ReplaceAsWritten(before + key, t[|key|..], key, rep)
    else [t[0]] + ReplaceAsWritten(before + [t[0]], t[1..], key, rep)
  }

  function UnloadKeysAsWritten(body: string, keys: seq<string>, entries: map<string, string>): string
    requires forall i :: 0 <= i < |keys| ==> keys[i] in entries
    decreases |keys|
  {
    if keys == [] then body
    else UnloadKeysAsWritten(ReplaceAsWritten("", body, keys[0], entries[keys[0]]), keys[1..], entries)
  }

  /** What `unload` returns as written: each payload is read as a replacement pattern. */
  function UnloadTextAsWritten(body: string, t: Table): string
    requires WellFormed(t)
  {
    UnloadKeysAsWritten(body, t.order, t.entries)
  }

  /** Without a `$` in the payload, the pattern reading is the literal replacement. */
  lemma {:induction false} AsWrittenLiteralWithoutDollar(before: string, t: string, key: string, rep: string)
    requires '$' !in rep
    ensures ReplaceAsWritten(before, t, key, rep) == ReplaceAll(t, key, rep)
    decreases |t|
  {
    if |key| == 0 {
      if |t| > 0 {
        AsWrittenLiteralWithoutDollar(before + [t[0]], t[1..], key, rep);
      }
    } else if |t| >= |key| {
      if t[..|key|] == key {
        AsWrittenLiteralWithoutDollar(before + key, t[|key|..], key, rep);
      } else {
        AsWrittenLiteralWithoutDollar(before + [t[0]], t[1..], key, rep);
      }
    }
  }

  /** Unloading agrees with the literal reading whenever no payload holds a `$`. */
  lemma {:induction false} UnloadAsWrittenWithoutDollar(body: string, keys: seq<string>, entries: map<string, string>)
    requires forall i :: 0 <= i < |keys| ==> keys[i] in entries && '$' !in entries[keys[i]]
    ensures UnloadKeysAsWritten(body, keys, entries) == UnloadKeys(body, keys, entries)
    decreases |keys|
  {
    if keys != [] {
      AsWrittenLiteralWithoutDollar("", body, keys[0], entries[keys[0]]);
      assert body[0..] == body;
      UnloadAsWrittenWithoutDollar(ReplaceAll(body, keys[0], entries[keys[0]]), keys[1..], entries);
    }
  }

  /** No stored payload holds a `$`, so none of them is read as a pattern. */
  predicate DollarFree(t: Table)
  {
    forall k :: k in t.entries ==> '$' !in t.entries[k]
  }

  /**
   * The round trip of `unload` as written: with `$`-free payloads it gives the
   * text back under the conditions of `UnloadAfterLoad`.
   */
  lemma UnloadAfterLoadAsWritten(c: CacheConfig, s: string)
    requires forall m, g :: c.outputReplacer(m, g) == m
    requires Consistent(Scan(c, s))
    requires UnloadSafe(Scan(c, s), Record(EmptyTable, Scan(c, s)))
    requires DollarFree(Record(EmptyTable, Scan(c, s)))
    ensures WellFormed(Record(EmptyTable, Scan(c, s)))
    ensures UnloadTextAsWritten(LoadText(c, s), Record(EmptyTable, Scan(c, s))) == s
  {
    UnloadAfterLoad(c, s);
    var t := Record(EmptyTable, Scan(c, s));
    UnloadAsWrittenWithoutDollar(LoadText(c, s), t.order, t.entries);
  }

  /** A cache whose pattern matches the whole text and whose hash is always `"h"`. */
  function WholeTextConfig(): CacheConfig
  {
    CacheConfig(
      (s: string, from: nat) => if from == 0 && |s| > 0 then Some(Match(0, |s|, [])) else None,
      KeepMatch, KeepHash, (text: string) => "h")
  }

  /**
   * Loading `$$` stores the payload `$$` under `h`; unloading as written gives
   * back `$`, the literal reading gives back `$$`.
   */
  lemma DollarPayloadCorrupted()
    ensures LoadText(WholeTextConfig(), "$$") == "h"
    ensures WellFormed(Record(EmptyTable, Scan(WholeTextConfig(), "$$")))
    ensures UnloadTextAsWritten("h", Record(EmptyTable, Scan(WholeTextConfig(), "$$"))) == "$"
    ensures UnloadText("h", Record(EmptyTable, Scan(WholeTextConfig(), "$$"))) == "$$"
  {
    var c := WholeTextConfig();
    assert c.expression("$$", 0) == Some(Match(0, 2, []));
    assert c.expression("$$", 2) == None;
    assert ScanFrom(c, "$$", 2, 2) == [Text("")];
    assert "$$"[0..2] == "$$" && "$$"[0..0] == "";
    assert Identity(c, "$$", []) == "h" && Payload(c, "$$", []) == "$$";
    var ps := [Text(""), Slot("h", "$$"), Text("")];
    assert Scan(c, "$$") == ps;
    assert Render(ps, {}, map[]) == "h";
    var t := Record(EmptyTable, ps);
    assert t == Table(["h"], map["h" := "$$"]);
    assert "h"[..1] == "h" && "h"[1..] == "";
    assert ReplaceAsWritten("", "h", "h", "$$") == Expand("$$", "h", "", "") + ReplaceAsWritten("h", "", "h", "$$");
    assert ReplaceAll("h", "h", "$$") == "$$" + ReplaceAll("", "h", "$$");
  }

  // ---------------------------------------------------------------------------
  // The cache object
  // ---------------------------------------------------------------------------

  class StringReplacementCache {
    const config: CacheConfig
    /** The keys of `_cache` in `Object.keys` order. */
    var order: seq<string>
    /** `_cache`: identity to payload. */
    var cache: map<string, string>
    /** `loaded`; before the first `load` the property is unset, which reads as false. */
    var loaded: bool

    ghost predicate Valid()
      reads this
    {
      WellFormed(Table(order, cache))
    }

    function Contents(): Table
      reads this
    {
      Table(order, cache)
    }

    constructor(config: CacheConfig)
      ensures Valid() && this.config == config
      ensures Contents() == EmptyTable && !loaded
    {
      this.config := config;
      order, cache := [], map[];
      loaded := false;
    }

    /** Replace every match by its identity, recording `identity -> payload`. */
    method Load(body: string) returns (processed: string)
      requires Valid()
      modifies this
      ensures Valid() && loaded
      ensures processed == LoadText(config, body)
      ensures Contents() == Record(old(Contents()), Scan(config, body))
    {
      processed := "";
      var from: nat, last: nat := 0, 0;
      ghost var pending := Scan(config, body);
      ghost var goal := Record(old(Contents()), pending);
      while true
        invariant last <= from <= |body|
        invariant Valid()
        invariant pending == ScanFrom(config, body, from, last)
        invariant processed + Render(pending, {}, map[]) == LoadText(config, body)
        invariant Record(Contents(), pending) == goal
        decreases |body| - from
      {
        var found := config.expression(body, from);
        if found.None? || !(from <= found.value.start <= found.value.end <= |body|) {
          ScanStop(config, body, from, last, Contents());
          processed := processed + body[last..];
          break;
        }
        var m := found.value;
        var text := body[m.start..m.end];
        var identity := Identity(config, text, m.groups);
        var payload := Payload(config, text, m.groups);
        var next := Resume(m);
        ScanRenders(config, body, from, last, m);
        ScanRecords(config, body, from, last, m, Contents());
        ghost var rest := Rest(config, body, m);
        var head := body[last..m.start] + identity;
        assert Render(pending, {}, map[]) == head + Render(rest, {}, map[]);
        assert (processed + head) + Render(rest, {}, map[]) == processed + (head + Render(rest, {}, map[]));
        pending := rest;
        var t := Put(Contents(), identity, payload);
        order, cache := t.order, t.entries;
        processed := processed + head;
        if next > |body| {
          assert Render([], {}, map[]) == "" && Record(Contents(), []) == Contents();
          break;
        }
        from, last := next, m.end;
      }
      loaded := true;
    }

    /** Replace every identity by its payload, read as a replacement pattern, in key order; then empty the table. */
    method Unload(body: string) returns (processed: string)
      requires Valid()
      modifies this
      ensures processed == UnloadTextAsWritten(body, old(Contents()))
      ensures Valid() && Contents() == EmptyTable && !loaded
    {
      processed := body;
      var i := 0;
      while i < |order|
        invariant 0 <= i <= |order|
        invariant UnloadKeysAsWritten(processed, order[i..], cache) == UnloadTextAsWritten(body, Contents())
      {
        assert order[i..][1..] == order[i + 1..];
        processed := ReplaceAsWritten("", processed, order[i], cache[order[i]]);
        i := i + 1;
      }
      order, cache := [], map[];
      loaded := false;
    }
  }

  /** A fresh cache gives the text back after a load and an unload. */
  method RoundTrip(c: CacheConfig, s: string) returns (r: string)
    requires forall m, g :: c.outputReplacer(m, g) == m
    requires Consistent(Scan(c, s))
    requires UnloadSafe(Scan(c, s), Record(EmptyTable, Scan(c, s)))
    requires DollarFree(Record(EmptyTable, Scan(c, s)))
    ensures r == s
  {
    var cache := new StringReplacementCache(c);
    var loaded := cache.Load(s);
    UnloadAfterLoadAsWritten(c, s);
    r := cache.Unload(loaded);
  }
}
