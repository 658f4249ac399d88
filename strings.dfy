/**
 * JavaScript string primitives that the loader relies on, stated over
 * `seq<char>`: the `\s` character class, `String.prototype.slice`,
 * splitting on a single character and joining back.
 */
module Strings {

  datatype Option<+T> = None | Some(value: T)

  /** A thrown `Error` of the source becomes `Err` with the error's message. */
  datatype Result<+T> = Ok(value: T) | Err(message: string)

  /** Membership in JavaScript's `\s` class (WhiteSpace and LineTerminator). */
  predicate IsSpace(c: char)
  {
    c == '\t' || c == '\n' || c == '\U{000B}' || c == '\U{000C}' || c == '\r' || c == ' '
    || c == '\U{00A0}' || c == '\U{1680}' || ('\U{2000}' <= c <= '\U{200A}')
    || c == '\U{2028}' || c == '\U{2029}' || c == '\U{202F}' || c == '\U{205F}'
    || c == '\U{3000}' || c == '\U{FEFF}'
  }

  predicate AllSpace(s: string)
  {
    forall i :: 0 <= i < |s| ==> IsSpace(s[i])
  }

  /** `s` holds `key` at position `i`. */
  predicate StartsAt(s: string, i: nat, key: string)
  {
    i + |key| <= |s| && s[i..i + |key|] == key
  }

  /** How `slice` turns a possibly negative or out-of-range argument into an index. */
  function ClampIndex(i: int, n: nat): (r: nat)
    ensures r <= n
    ensures 0 <= i <= n ==> r == i
    ensures i < 0 && n + i >= 0 ==> r == n + i
  {
    if i < 0 then (if n + i < 0 then 0 else n + i) else if i > n then n else i
  }

  /** `s.slice(a, b)`: negative arguments count from the end, results are clamped. */
  function JsSlice(s: string, a: int, b: int): (r: string)
    ensures 0 <= a <= b <= |s| ==> r == s[a..b]
    ensures |r| <= |s|
  {
    var from := ClampIndex(a, |s|);
    var to := ClampIndex(b, |s|);
    if from < to then s[from..to] else ""
  }

  /** Concatenation regroups freely. */
  lemma Assoc<T>(a: seq<T>, b: seq<T>, c: seq<T>)
    ensures a + (b + c) == (a + b) + c
  {
  }

  /** A suffix cut at two points. */
  lemma Split3<T>(s: seq<T>, a: nat, b: nat, e: nat)
    requires a <= b <= e <= |s|
    ensures s[a..] == s[a..b] + s[b..e] + s[e..]
  {
  }

  /** `t` is what `s` holds from position `d` on. */
  predicate TailAt<T(==)>(s: seq<T>, d: nat, t: seq<T>)
  {
    d + |t| == |s| && forall k :: 0 <= k < |t| ==> s[d + k] == t[k]
  }

  lemma ConcatTail<T>(p: seq<T>, t: seq<T>)
    ensures TailAt(p + t, |p|, t)
  {
  }

  /** A slice of the tail, read in the whole. */
  lemma TailSlice<T>(s: seq<T>, d: nat, t: seq<T>, a: nat, b: nat, a': nat, b': nat)
    requires TailAt(s, d, t) && a <= b <= |t| && a' == d + a && b' == d + b
    ensures s[a'..b'] == t[a..b]
  {
    forall k | 0 <= k < b - a ensures s[a'..b'][k] == t[a..b][k] {
      assert s[a' + k] == t[a + k];
    }
  }

  /** `s.split(sep)` for a one-character separator. */
  function Split(s: string, sep: char): (parts: seq<string>)
    ensures |parts| >= 1
    ensures forall k :: 0 <= k < |parts| ==> sep !in parts[k]
    decreases |s|
  {
    if |s| == 0 then [""]
    else
      var rest := Split(s[1..], sep);
      if s[0] == sep then [""] + rest
      else [[s[0]] + rest[0]] + rest[1..]
  }

  /** `parts.join(sep)`. */
  function Join(parts: seq<string>, sep: string): string
    decreases |parts|
  {
    if |parts| == 0 then ""
    else if |parts| == 1 then parts[0]
    else parts[0] + sep + Join(parts[1..], sep)
  }

  /** Splitting on a character and joining with it gives the text back. */
  lemma {:induction false} JoinSplit(s: string, sep: char)
    ensures Join(Split(s, sep), [sep]) == s
    decreases |s|
  {
    if |s| > 0 {
      JoinSplit(s[1..], sep);
      var rest := Split(s[1..], sep);
      if s[0] == sep {
        assert s == [sep] + s[1..];
      } else if |rest| == 1 {
        assert s == [s[0]] + s[1..];
      } else {
        assert Join(rest, [sep]) == rest[0] + [sep] + Join(rest[1..], [sep]);
        assert s == [s[0]] + s[1..];
      }
    }
  }

  /** At `p` starts a line break followed only by whitespace to the end. */
  predicate BlankTailAt(s: string, p: nat)
  {
    p < |s| && s[p] == '\n' && AllSpace(s[p + 1..])
  }

  /** The leftmost position at or after `p` where a blank tail starts. */
  function FirstBlankTail(s: string, p: nat): (q: Option<nat>)
    requires p <= |s|
    ensures q.Some? ==> p <= q.value < |s| && BlankTailAt(s, q.value)
    ensures q.Some? ==> forall k :: p <= k < q.value ==> !BlankTailAt(s, k)
    ensures q.None? ==> forall k :: p <= k < |s| ==> !BlankTailAt(s, k)
    decreases |s| - p
  {
    if p == |s| then None
    else if BlankTailAt(s, p) then Some(p)
    else FirstBlankTail(s, p + 1)
  }

  /** `s.replace(/\n\s*$/g, '')`: drop the trailing line break and the whitespace after it. */
  function TrimTrailingBlank(s: string): (r: string)
    ensures |r| <= |s| && r == s[..|r|]
    ensures |r| < |s| ==> BlankTailAt(s, |r|)
  {
    match FirstBlankTail(s, 0)
    case None => s
    case Some(p) => s[..p]
  }

  /** A line break followed by whitespace up to a blank tail starts a blank tail itself. */
  lemma BlankTailExtends(s: string, q: nat, p: nat)
    requires q < p && BlankTailAt(s, p) && s[q] == '\n' && AllSpace(s[q + 1..p])
    ensures BlankTailAt(s, q)
  {
    forall k | q + 1 <= k < |s| ensures IsSpace(s[k]) {
      if k < p {
        assert s[k] == s[q + 1..p][k - q - 1];
      } else if k > p {
        assert s[k] == s[p + 1..][k - p - 1];
      }
    }
  }

  /** After trimming, no blank tail is left, so trimming again changes nothing. */
  lemma TrimLeavesNoBlankTail(s: string)
    ensures forall q :: 0 <= q < |TrimTrailingBlank(s)| ==> !BlankTailAt(TrimTrailingBlank(s), q)
    ensures TrimTrailingBlank(TrimTrailingBlank(s)) == TrimTrailingBlank(s)
  {
    var r := TrimTrailingBlank(s);
    forall q | 0 <= q < |r| && BlankTailAt(r, q) ensures BlankTailAt(s, q) {
      assert r[q + 1..] == s[q + 1..|r|];
      if |r| < |s| {
        BlankTailExtends(s, q, |r|);
      }
    }
    assert FirstBlankTail(r, 0).None?;
  }

  /** Text whose last line break (if any) is followed by a non-space is left alone. */
  lemma TrimKeepsContentEnding(s: string)
    requires |s| > 0 && !IsSpace(s[|s| - 1])
    ensures TrimTrailingBlank(s) == s
  {
    forall k | 0 <= k < |s| ensures !BlankTailAt(s, k) {
      if k < |s| - 1 {
        assert s[k + 1..][|s| - k - 2] == s[|s| - 1];
      }
    }
  }
}
