/**
 * The `str` operations the CLI page generator is built from, on strings
 * as sequences of characters: prefix and suffix tests and stripping,
 * searching, `trim_start_matches`, `replacen` with a count of one,
 * `split` with a non-empty pattern, `join`, and `trim`.
 */
module Text {
  import opened Wrappers

  predicate StartsWith(s: string, p: string) {
    |p| <= |s| && s[..|p|] == p
  }

  predicate EndsWith(s: string, p: string) {
    |p| <= |s| && s[|s| - |p|..] == p
  }

  /** `p` occurs in `s` starting at position `i`. */
  predicate OccursAt(s: string, p: string, i: nat) {
    i + |p| <= |s| && s[i..i + |p|] == p
  }

  /** The first position at or after `k` where `p` occurs in `s`. */
  function FindFrom(s: string, p: string, k: nat): (r: Option<nat>)
    requires k <= |s|
    ensures r.Some? ==> k <= r.value && OccursAt(s, p, r.value)
    ensures r.Some? ==> forall j: nat :: k <= j < r.value ==> !OccursAt(s, p, j)
    ensures r.None? ==> forall j: nat :: k <= j ==> !OccursAt(s, p, j)
    decreases |s| - k
  {
    if OccursAt(s, p, k) then Some(k)
    else if k == |s| then None
    else FindFrom(s, p, k + 1)
  }

  function Find(s: string, p: string): Option<nat> {
    FindFrom(s, p, 0)
  }

  predicate Contains(s: string, p: string) {
    Find(s, p).Some?
  }

  /** Any occurrence makes `Contains` hold. */
  lemma OccursAtContains(s: string, p: string, i: nat)
    requires OccursAt(s, p, i)
    ensures Contains(s, p)
  {
  }

  /** `Find` returns the earliest occurrence. */
  lemma FindIsFirst(s: string, p: string, i: nat)
    requires OccursAt(s, p, i)
    requires forall j: nat :: j < i ==> !OccursAt(s, p, j)
    ensures Find(s, p) == Some(i)
  {
  }

  /** An occurrence inside an infix of `s` is an occurrence in `s`. */
  lemma OccursInInfix(s: string, a: nat, b: nat, p: string, j: nat)
    requires a <= b <= |s|
    requires OccursAt(s[a..b], p, j)
    ensures OccursAt(s, p, a + j)
  {
    forall t | 0 <= t < |p|
      ensures s[a + j + t] == p[t]
    {
      assert s[a..b][j + t] == p[t];
    }
    assert s[a + j..a + j + |p|] == p;
  }

  lemma ContainsInInfix(s: string, a: nat, b: nat, p: string)
    requires a <= b <= |s|
    requires Contains(s[a..b], p)
    ensures Contains(s, p)
  {
    OccursInInfix(s, a, b, p, Find(s[a..b], p).value);
  }

  /** `strip_prefix`: the rest after `p`, exactly when `s` starts with `p`. */
  function StripPrefix(s: string, p: string): (r: Option<string>)
    ensures r.Some? <==> StartsWith(s, p)
    ensures r.Some? ==> p + r.value == s
  {
    if StartsWith(s, p) then Some(s[|p|..]) else None
  }

  /** `strip_suffix`: what comes before `p`, exactly when `s` ends with `p`. */
  function StripSuffix(s: string, p: string): (r: Option<string>)
    ensures r.Some? <==> EndsWith(s, p)
    ensures r.Some? ==> r.value + p == s
  {
    if EndsWith(s, p) then Some(s[..|s| - |p|]) else None
  }

  function Repeat(p: string, n: nat): string {
    if n == 0 then [] else p + Repeat(p, n - 1)
  }

  /** `trim_start_matches`: drops every leading repetition of `p`. */
  function TrimStartMatches(s: string, p: string): (r: string)
    ensures p != [] ==> !StartsWith(r, p)
    decreases |s|
  {
    if p != [] && StartsWith(s, p) then TrimStartMatches(s[|p|..], p) else s
  }

  /** What `TrimStartMatches` drops is a number of repetitions of `p`. */
  lemma {:induction false} TrimStartMatchesDropsRepetitions(s: string, p: string) returns (n: nat)
    ensures s == Repeat(p, n) + TrimStartMatches(s, p)
    decreases |s|
  {
    if p != [] && StartsWith(s, p) {
      var tail := s[|p|..];
      var m := TrimStartMatchesDropsRepetitions(tail, p);
      n := m + 1;
      var t := TrimStartMatches(s, p);
      assert t == TrimStartMatches(tail, p);
      assert s == p + tail;
      calc {
        Repeat(p, n) + t;
        (p + Repeat(p, m)) + t;
        p + (Repeat(p, m) + t);
        p + tail;
      }
    } else {
      n := 0;
    }
  }

  /** Stripping every leading repetition is the only split into repetitions and a rest without one. */
  lemma {:induction false} TrimStartMatchesUnique(s: string, p: string, n: nat, r: string)
    requires p != []
    requires s == Repeat(p, n) + r
    requires !StartsWith(r, p)
    ensures TrimStartMatches(s, p) == r
  {
    if n > 0 {
      assert s[..|p|] == p;
      assert s[|p|..] == Repeat(p, n - 1) + r;
      TrimStartMatchesUnique(s[|p|..], p, n - 1, r);
    }
  }

  /** `replacen(from, to, 1)`: the first occurrence of `from` becomes `to`. */
  function ReplaceFirst(s: string, from: string, to: string): string {
    match Find(s, from)
    case None => s
    case Some(i) => s[..i] + to + s[i + |from|..]
  }

  lemma ReplaceFirstAt(s: string, from: string, to: string, i: nat)
    requires OccursAt(s, from, i)
    requires forall j: nat :: j < i ==> !OccursAt(s, from, j)
    ensures ReplaceFirst(s, from, to) == s[..i] + to + s[i + |from|..]
  {
    FindIsFirst(s, from, i);
  }

  lemma ReplaceFirstAbsent(s: string, from: string, to: string)
    requires !Contains(s, from)
    ensures ReplaceFirst(s, from, to) == s
  {
  }

  /**
   * `split` with a non-empty pattern: the pieces between the occurrences
   * of `sep` found left to right without overlap.
   */
  function Split(s: string, sep: string): (r: seq<string>)
    requires sep != []
    ensures |r| >= 1
    decreases |s|
  {
    match Find(s, sep)
    case None => [s]
    case Some(i) => [s[..i]] + Split(s[i + |sep|..], sep)
  }

  lemma SplitUnfold(s: string, sep: string, i: nat)
    requires sep != [] && Find(s, sep) == Some(i)
    ensures Split(s, sep) == [s[..i]] + Split(s[i + |sep|..], sep)
  {
  }

  /** The pieces of a split after its first piece are the pieces of the rest. */
  lemma SplitUnfoldAt(s: string, sep: string, i: nat, k: nat)
    requires sep != [] && Find(s, sep) == Some(i)
    ensures |Split(s, sep)| == 1 + |Split(s[i + |sep|..], sep)|
    ensures Split(s, sep)[0] == s[..i]
    ensures 1 <= k < |Split(s, sep)| ==> Split(s, sep)[k] == Split(s[i + |sep|..], sep)[k - 1]
  {
    SplitUnfold(s, sep, i);
  }

  /**
   * `split` cuts at the leftmost occurrence and goes on after it: a text
   * without the separator is one piece; otherwise the first piece ends at
   * the earliest occurrence and the other pieces split what follows it.
   */
  lemma SplitCutsAtLeftmost(s: string, sep: string)
    requires sep != []
    ensures |Split(s, sep)| == 1 <==> !Contains(s, sep)
    ensures |Split(s, sep)| == 1 ==> Split(s, sep) == [s]
    ensures |Split(s, sep)| > 1 ==>
              var i := |Split(s, sep)[0]|;
              && OccursAt(s, sep, i)
              && (forall j: nat :: j < i ==> !OccursAt(s, sep, j))
              && Split(s, sep)[1..] == Split(s[i + |sep|..], sep)
  {
    var f := Find(s, sep);
    if f.Some? {
      var i := f.value;
      SplitUnfold(s, sep, i);
      assert Split(s, sep)[0] == s[..i];
      assert Split(s, sep)[1..] == Split(s[i + |sep|..], sep);
    }
  }

  /** No piece of a split holds the pattern. */
  lemma {:induction false} SplitPiecesLackPattern(s: string, sep: string)
    requires sep != []
    ensures forall k :: 0 <= k < |Split(s, sep)| ==> !Contains(Split(s, sep)[k], sep)
    decreases |s|
  {
    var f := Find(s, sep);
    if f.Some? {
      var i := f.value;
      var c := i + |sep|;
      SplitPiecesLackPattern(s[c..], sep);
      var parts := Split(s, sep);
      SplitUnfold(s, sep, i);
      if Contains(s[..i], sep) {
        OccursInInfix(s, 0, i, sep, Find(s[..i], sep).value);
      }
      assert forall k :: 1 <= k < |parts| ==> parts[k] == Split(s[c..], sep)[k - 1];
    }
  }

  lemma ThreeWaySplit(s: string, i: nat, j: nat)
    requires i <= j <= |s|
    ensures s[..i] + s[i..j] + s[j..] == s
  {
    assert s[..i] + s[i..j] == s[..j];
  }

  /** `join`: the parts with `sep` between neighbours. */
  function Join(parts: seq<string>, sep: string): string {
    if |parts| == 0 then []
    else if |parts| == 1 then parts[0]
    else parts[0] + sep + Join(parts[1..], sep)
  }

  /** Joining the pieces of a split with its pattern gives the string back. */
  lemma {:induction false} SplitJoin(s: string, sep: string)
    requires sep != []
    ensures Join(Split(s, sep), sep) == s
    decreases |s|
  {
    var f := Find(s, sep);
    if f.Some? {
      var i := f.value;
      var rest := s[i + |sep|..];
      SplitJoin(rest, sep);
      var parts := Split(s, sep);
      SplitUnfold(s, sep, i);
      assert parts[0] == s[..i] && parts[1..] == Split(rest, sep);
      assert Join(parts, sep) == parts[0] + sep + Join(parts[1..], sep);
      ThreeWaySplit(s, i, i + |sep|);
    }
  }

  /** Splitting on a one-character separator undoes joining parts that do not hold it. */
  lemma {:induction false} JoinSplit(parts: seq<string>, sep: string)
    requires |sep| == 1
    requires |parts| >= 1
    requires forall k :: 0 <= k < |parts| ==> !Contains(parts[k], sep)
    ensures Split(Join(parts, sep), sep) == parts
  {
    if |parts| > 1 {
      var rest := Join(parts[1..], sep);
      assert Join(parts, sep) == parts[0] + sep + rest;
      SplitAtFirstSingle(parts[0], sep, rest);
      JoinSplit(parts[1..], sep);
      assert parts == [parts[0]] + parts[1..];
    }
  }

  /** A one-character separator after a piece without it is the first cut. */
  lemma SplitAtFirstSingle(p0: string, sep: string, rest: string)
    requires |sep| == 1 && !Contains(p0, sep)
    ensures Split(p0 + sep + rest, sep) == [p0] + Split(rest, sep)
  {
    var s := p0 + sep + rest;
    assert s[..|p0|] == p0 && s[|p0|..|p0| + 1] == sep && s[|p0| + 1..] == rest;
    NoEarlierSingle(p0, sep, rest);
    FindIsFirst(s, sep, |p0|);
    SplitUnfold(s, sep, |p0|);
  }

  lemma NoEarlierSingle(p0: string, sep: string, rest: string)
    requires |sep| == 1 && !Contains(p0, sep)
    ensures forall j: nat :: j < |p0| ==> !OccursAt(p0 + sep + rest, sep, j)
  {
    var s := p0 + sep + rest;
    forall j: nat | j < |p0|
      ensures !OccursAt(s, sep, j)
    {
      if OccursAt(s, sep, j) {
        assert s[j] == sep[0] == p0[j];
        assert p0[j..j + 1] == sep;
        OccursAtContains(p0, sep, j);
      }
    }
  }

  /** `t` stands in `s` at position `a`. */
  predicate InfixAt(s: string, t: string, a: nat) {
    a + |t| <= |s| && s[a..a + |t|] == t
  }

  lemma InfixOfSuffix(s: string, c: nat, t: string, b: nat)
    requires c <= |s| && InfixAt(s[c..], t, b)
    ensures InfixAt(s, t, c + b)
  {
    assert s[c..][b..b + |t|] == s[c + b..c + b + |t|];
  }

  /** Each piece of a split stands somewhere in the string that was split. */
  lemma {:induction false} SplitPieceIsInfix(s: string, sep: string, k: nat) returns (a: nat)
    requires sep != []
    requires k < |Split(s, sep)|
    ensures InfixAt(s, Split(s, sep)[k], a)
    decreases |s|
  {
    var f := Find(s, sep);
    if f.None? {
      a := 0;
      assert s[0..|s|] == s;
    } else {
      var i := f.value;
      var c := i + |sep|;
      SplitUnfoldAt(s, sep, i, k);
      if k == 0 {
        a := 0;
      } else {
        var b := SplitPieceIsInfix(s[c..], sep, k - 1);
        InfixOfSuffix(s, c, Split(s, sep)[k], b);
        a := c + b;
      }
    }
  }

  /** A pattern absent from `s` is absent from every piece of its split. */
  lemma SplitPiecesAvoid(s: string, sep: string, p: string)
    requires sep != [] && !Contains(s, p)
    ensures forall k :: 0 <= k < |Split(s, sep)| ==> !Contains(Split(s, sep)[k], p)
  {
    var parts := Split(s, sep);
    forall k | 0 <= k < |parts|
      ensures !Contains(parts[k], p)
    {
      var a := SplitPieceIsInfix(s, sep, k);
      if Contains(parts[k], p) {
        ContainsInInfix(s, a, a + |parts[k]|, p);
      }
    }
  }

  /** Unicode White_Space, the characters `trim` removes. */
  predicate IsWhitespace(c: char) {
    || ('\t' <= c <= '\r') || c == ' ' || c == '\U{85}' || c == '\U{A0}' || c == '\U{1680}'
    || ('\U{2000}' <= c <= '\U{200A}') || c == '\U{2028}' || c == '\U{2029}'
    || c == '\U{202F}' || c == '\U{205F}' || c == '\U{3000}'
  }

  function TrimStart(s: string): (r: string)
    ensures |r| <= |s| && r == s[|s| - |r|..]
    ensures forall k :: 0 <= k < |s| - |r| ==> IsWhitespace(s[k])
    ensures r == [] || !IsWhitespace(r[0])
    decreases |s|
  {
    if |s| > 0 && IsWhitespace(s[0]) then TrimStart(s[1..]) else s
  }

  function TrimEnd(s: string): (r: string)
    ensures |r| <= |s| && r == s[..|r|]
    ensures forall k :: |r| <= k < |s| ==> IsWhitespace(s[k])
    ensures r == [] || !IsWhitespace(r[|r| - 1])
    decreases |s|
  {
    if |s| > 0 && IsWhitespace(s[|s| - 1]) then TrimEnd(s[..|s| - 1]) else s
  }

  /** `trim`: drops leading and trailing whitespace and nothing else. */
  function Trim(s: string): (r: string)
    ensures r == [] || (!IsWhitespace(r[0]) && !IsWhitespace(r[|r| - 1]))
  {
    TrimEnd(TrimStart(s))
  }

  /** `Trim` keeps an infix of `s` and what it drops on either side is whitespace. */
  lemma TrimKeepsInfix(s: string) returns (a: nat)
    ensures a + |Trim(s)| <= |s| && Trim(s) == s[a..a + |Trim(s)|]
    ensures forall k :: 0 <= k < a ==> IsWhitespace(s[k])
    ensures forall k :: a + |Trim(s)| <= k < |s| ==> IsWhitespace(s[k])
  {
    var t := TrimStart(s);
    var r := TrimEnd(t);
    assert r == Trim(s);
    a := |s| - |t|;
    PrefixOfSuffix(s, a, |r|);
    TrailOfSuffix(s, t, a, |r|);
  }

  lemma PrefixOfSuffix(s: string, a: nat, n: nat)
    requires a + n <= |s|
    ensures s[a..][..n] == s[a..a + n]
  {
  }

  lemma TrailOfSuffix(s: string, t: string, a: nat, n: nat)
    requires a + |t| == |s| && t == s[a..] && n <= |t|
    requires forall k :: n <= k < |t| ==> IsWhitespace(t[k])
    ensures forall k :: a + n <= k < |s| ==> IsWhitespace(s[k])
  {
    forall k | a + n <= k < |s|
      ensures IsWhitespace(s[k])
    {
      assert s[k] == t[k - a];
    }
  }

  predicate AllWhitespace(w: string) {
    forall k :: 0 <= k < |w| ==> IsWhitespace(w[k])
  }

  lemma {:induction false} TrimStartPadded(w: string, m: string)
    requires AllWhitespace(w)
    requires m == [] || !IsWhitespace(m[0])
    ensures TrimStart(w + m) == m
    decreases |w|
  {
    if |w| == 0 {
      assert w + m == m;
    } else {
      assert (w + m)[0] == w[0];
      assert (w + m)[1..] == w[1..] + m;
      TrimStartPadded(w[1..], m);
    }
  }

  lemma {:induction false} TrimEndPadded(m: string, w: string)
    requires AllWhitespace(w)
    requires m == [] || !IsWhitespace(m[|m| - 1])
    ensures TrimEnd(m + w) == m
    decreases |w|
  {
    if |w| == 0 {
      assert m + w == m;
    } else {
      var n := |m + w|;
      assert (m + w)[n - 1] == w[|w| - 1];
      assert (m + w)[..n - 1] == m + w[..|w| - 1];
      TrimEndPadded(m, w[..|w| - 1]);
    }
  }

  /** The converse of `TrimKeepsInfix`: padding a trimmed string with whitespace trims back to it. */
  lemma TrimPadded(w: string, m: string, w': string)
    requires AllWhitespace(w) && AllWhitespace(w')
    requires m == [] || (!IsWhitespace(m[0]) && !IsWhitespace(m[|m| - 1]))
    ensures Trim(w + m + w') == m
  {
    if m == [] {
      assert w + m + w' == (w + w') + [];
      TrimStartPadded(w + w', []);
      TrimEndPadded([], []);
    } else {
      assert w + m + w' == w + (m + w');
      TrimStartPadded(w, m + w');
      TrimEndPadded(m, w');
    }
  }

  /** `t` is `s` with some whitespace dropped at its start and some at its end. */
  predicate TrimmedFrom(t: string, s: string) {
    exists a: nat :: a <= |s| && InfixAt(s, t, a)
      && (forall j :: 0 <= j < a ==> IsWhitespace(s[j]))
      && (forall j :: a + |t| <= j < |s| ==> IsWhitespace(s[j]))
  }

  lemma TrimIsTrimmedFrom(s: string)
    ensures TrimmedFrom(Trim(s), s)
  {
    var a := TrimKeepsInfix(s);
    var t := Trim(s);
    assert InfixAt(s, t, a)
      && (forall j :: 0 <= j < a ==> IsWhitespace(s[j]))
      && (forall j :: a + |t| <= j < |s| ==> IsWhitespace(s[j]));
  }
}
