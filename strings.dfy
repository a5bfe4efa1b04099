/**
 * The Python `str` built-ins the speech backend relies on: `isspace`,
 * `lower`, `strip`, `split()` with no separator, and `sep.join`.
 */
module Strings {

  /** Python's `str.isspace` for a single character: the Unicode characters
      of category Zs and of bidirectional class WS, B or S. */
  predicate IsSpace(c: char)
  {
    ('\t' <= c <= '\r') || ('\U{1C}' <= c <= '\U{1F}') || c == ' ' ||
    c == '\U{85}' || c == '\U{A0}' || c == '\U{1680}' ||
    ('\U{2000}' <= c <= '\U{200A}') || c == '\U{2028}' || c == '\U{2029}' ||
    c == '\U{202F}' || c == '\U{205F}' || c == '\U{3000}'
  }

  predicate AllSpace(s: string)
  {
    forall i :: 0 <= i < |s| ==> IsSpace(s[i])
  }

  predicate NoSpace(s: string)
  {
    forall i :: 0 <= i < |s| ==> !IsSpace(s[i])
  }

  /** `str.lower` restricted to the ASCII letters. */
  function LowerChar(c: char): (r: char)
    ensures 'A' <= c <= 'Z' ==> r as int == c as int + 32
    ensures !('A' <= c <= 'Z') ==> r == c
  {
    if 'A' <= c <= 'Z' then (c as int + 32) as char else c
  }

  function Lower(s: string): (r: string)
    ensures |r| == |s|
    ensures forall i :: 0 <= i < |s| ==> r[i] == LowerChar(s[i])
  {
    seq(|s|, i requires 0 <= i < |s| => LowerChar(s[i]))
  }

  /** Lower-casing never turns a non-space into a space or back. */
  lemma LowerKeepsSpaces(s: string)
    ensures forall i :: 0 <= i < |s| ==> (IsSpace(Lower(s)[i]) <==> IsSpace(s[i]))
  {
  }

  /** The index of the first non-whitespace character at or after `i`,
      or `|s|`. */
  function StripStart(s: string, i: nat): (b: nat)
    requires i <= |s|
    ensures i <= b <= |s|
    ensures forall k :: i <= k < b ==> IsSpace(s[k])
    ensures b == |s| || !IsSpace(s[b])
    decreases |s| - i
  {
    if i < |s| && IsSpace(s[i]) then StripStart(s, i + 1) else i
  }

  /** One past the last non-whitespace character of `s[lo..j]`, or `lo`. */
  function StripEnd(s: string, lo: nat, j: nat): (e: nat)
    requires lo <= j <= |s|
    ensures lo <= e <= j
    ensures forall k :: e <= k < j ==> IsSpace(s[k])
    ensures e == lo || !IsSpace(s[e - 1])
    decreases j
  {
    if lo < j && IsSpace(s[j - 1]) then StripEnd(s, lo, j - 1) else j
  }

  /** `str.strip()`: `s` with its leading and trailing whitespace removed. */
  function Strip(s: string): (r: string)
    ensures |r| <= |s|
    ensures r == [] || (!IsSpace(r[0]) && !IsSpace(r[|r| - 1]))
  {
    var b := StripStart(s, 0);
    s[b..StripEnd(s, b, |s|)]
  }

  /** Whitespace of `s` up to `b` makes the prefix `s[..b]` all whitespace. */
  lemma PrefixAllSpace(s: string, b: nat)
    requires b <= |s|
    requires forall k :: 0 <= k < b ==> IsSpace(s[k])
    ensures AllSpace(s[..b])
  {
    forall k | 0 <= k < b
      ensures IsSpace(s[..b][k])
    {
      assert s[..b][k] == s[k];
    }
  }

  /** Whitespace of `s` from `e` on makes the suffix `s[e..]` all whitespace. */
  lemma SuffixAllSpace(s: string, e: nat)
    requires e <= |s|
    requires forall k :: e <= k < |s| ==> IsSpace(s[k])
    ensures AllSpace(s[e..])
  {
    forall k | 0 <= k < |s| - e
      ensures IsSpace(s[e..][k])
    {
      assert s[e..][k] == s[e + k];
    }
  }

  /** What `strip` removes is whitespace only: the result is the slice
      `s[b..e]`, and everything outside it is whitespace. */
  lemma StripSlice(s: string)
    ensures var b := StripStart(s, 0);
            var e := StripEnd(s, b, |s|);
            Strip(s) == s[b..e] && AllSpace(s[..b]) && AllSpace(s[e..])
  {
    var b := StripStart(s, 0);
    var e := StripEnd(s, b, |s|);
    PrefixAllSpace(s, b);
    SuffixAllSpace(s, e);
  }

  /** Strip of a string with no whitespace at either end changes nothing. */
  lemma StripNoOp(s: string)
    requires s == [] || (!IsSpace(s[0]) && !IsSpace(s[|s| - 1]))
    ensures Strip(s) == s
  {
  }

  /** Length of the leading run of non-whitespace characters. */
  function WordLength(s: string): (n: nat)
    ensures n <= |s|
    ensures NoSpace(s[..n])
    ensures n == |s| || IsSpace(s[n])
    decreases |s|
  {
    if s == [] || IsSpace(s[0]) then 0 else 1 + WordLength(s[1..])
  }

  /** `s.split()`: the maximal runs of non-whitespace characters, in order.
      Every token is non-empty and free of whitespace, and a string of
      whitespace only has none. */
  function Split(s: string): (r: seq<string>)
    ensures forall k :: 0 <= k < |r| ==> r[k] != [] && NoSpace(r[k])
    ensures AllSpace(s) ==> r == []
    decreases |s|
  {
    if s == [] then []
    else if IsSpace(s[0]) then Split(s[1..])
    else
      var n := WordLength(s);
      [s[..n]] + Split(s[n..])
  }

  /** A word followed by nothing or by whitespace splits off as one token. */
  lemma SplitWord(t: string, rest: string)
    requires t != [] && NoSpace(t)
    requires rest == [] || IsSpace(rest[0])
    ensures Split(t + rest) == [t] + Split(rest)
  {
    WordLengthOf(t, rest);
    assert (t + rest)[..|t|] == t && (t + rest)[|t|..] == rest;
  }

  /** Leading whitespace does not change the split. */
  lemma SplitSpace(c: char, rest: string)
    requires IsSpace(c)
    ensures Split([c] + rest) == Split(rest)
  {
    assert ([c] + rest)[1..] == rest;
  }

  /** A single word splits into itself. */
  lemma SingleWord(t: string)
    requires t != [] && NoSpace(t)
    ensures Split(t) == [t]
  {
    SplitWord(t, []);
    assert t + [] == t;
  }

  /** A word, a whitespace character and the rest split into the word and
      the split of the rest. */
  lemma WordThenRest(t: string, sp: char, rest: string)
    requires t != [] && NoSpace(t) && IsSpace(sp)
    ensures Split(t + ([sp] + rest)) == [t] + Split(rest)
  {
    SplitWord(t, [sp] + rest);
    SplitSpace(sp, rest);
  }

  lemma {:induction false} WordLengthOf(t: string, rest: string)
    requires NoSpace(t)
    requires rest == [] || IsSpace(rest[0])
    ensures WordLength(t + rest) == |t|
    decreases |t|
  {
    if t == [] {
      assert t + rest == rest;
    } else {
      assert (t + rest)[1..] == t[1..] + rest;
      WordLengthOf(t[1..], rest);
    }
  }

  /** `split()` breaks at every whitespace character: whatever lies on
      either side of one splits separately. With `SingleWord` and the
      whitespace-only case of `Split`, this fixes the split of every string. */
  lemma {:induction false} SplitAtSpace(a: string, sp: char, b: string)
    requires IsSpace(sp)
    ensures Split(a + [sp] + b) == Split(a) + Split(b)
    decreases |a|
  {
    if a == [] {
      assert a + [sp] + b == [sp] + b;
      SplitSpace(sp, b);
    } else if IsSpace(a[0]) {
      var r := a[1..];
      SplitAtSpace(r, sp, b);
      assert a == [a[0]] + r;
      SpaceBeforeRest(a[0], r, sp, b);
    } else {
      var n := WordLength(a);
      var t := a[..n];
      assert n >= 1;
      if n == |a| {
        assert t == a;
        WordBeforeSpace(a, sp, b);
      } else {
        var rest := a[n..];
        SplitAtSpace(rest, sp, b);
        assert a == t + rest;
        WordBeforeRest(t, rest, sp, b);
      }
    }
  }

  /** `SplitAtSpace` when `a` starts with whitespace `c`. */
  lemma SpaceBeforeRest(c: char, r: string, sp: char, b: string)
    requires IsSpace(c)
    requires Split(r + [sp] + b) == Split(r) + Split(b)
    ensures Split([c] + r + [sp] + b) == Split([c] + r) + Split(b)
  {
    Assoc4([c], r, [sp], b);
    SplitSpace(c, r + [sp] + b);
    SplitSpace(c, r);
  }

  /** `SplitAtSpace` when `a` is a single word. */
  lemma WordBeforeSpace(a: string, sp: char, b: string)
    requires a != [] && NoSpace(a) && IsSpace(sp)
    ensures Split(a + [sp] + b) == Split(a) + Split(b)
  {
    assert a + [sp] + b == a + ([sp] + b);
    WordThenRest(a, sp, b);
    SingleWord(a);
  }

  /** `SplitAtSpace` when `a` is a word `t` and whitespace-led `rest`. */
  lemma WordBeforeRest(t: string, rest: string, sp: char, b: string)
    requires t != [] && NoSpace(t) && IsSpace(sp)
    requires rest != [] && IsSpace(rest[0])
    requires Split(rest + [sp] + b) == Split(rest) + Split(b)
    ensures Split(t + rest + [sp] + b) == Split(t + rest) + Split(b)
  {
    var u := rest + [sp] + b;
    Assoc4(t, rest, [sp], b);
    assert u[0] == rest[0];
    SplitWord(t, u);
    SplitWord(t, rest);
    Assoc3([t], Split(rest), Split(b));
  }

  /** Concatenation regroups. */
  lemma Assoc4<T>(a: seq<T>, b: seq<T>, c: seq<T>, d: seq<T>)
    ensures a + b + c + d == a + (b + c + d)
  {
  }

  lemma Assoc3<T>(a: seq<T>, b: seq<T>, c: seq<T>)
    ensures a + b + c == a + (b + c)
  {
  }

  function Concat(xs: seq<string>): string
  {
    if xs == [] then [] else xs[0] + Concat(xs[1..])
  }

  /** The characters of `s` that are not whitespace, in order. */
  function NonSpace(s: string): string
  {
    if s == [] then [] else (if IsSpace(s[0]) then [] else [s[0]]) + NonSpace(s[1..])
  }

  lemma {:induction false} NonSpaceAppend(a: string, b: string)
    ensures NonSpace(a + b) == NonSpace(a) + NonSpace(b)
  {
    if a != [] {
      assert (a + b)[0] == a[0] && (a + b)[1..] == a[1..] + b;
      NonSpaceAppend(a[1..], b);
      assert NonSpace(a + b) == (if IsSpace(a[0]) then [] else [a[0]]) + NonSpace(a[1..] + b);
    } else {
      assert a + b == b;
    }
  }

  lemma {:induction false} NonSpaceOfNoSpace(s: string)
    requires NoSpace(s)
    ensures NonSpace(s) == s
  {
    if s != [] {
      NonSpaceOfNoSpace(s[1..]);
    }
  }

  /** Every token of `split()` is non-empty and free of whitespace, and
      concatenated the tokens give back exactly the non-whitespace
      characters of the input. */
  lemma {:induction false} SplitTokens(s: string)
    ensures forall k :: 0 <= k < |Split(s)| ==> Split(s)[k] != [] && NoSpace(Split(s)[k])
    ensures Concat(Split(s)) == NonSpace(s)
    decreases |s|
  {
    if s == [] {
    } else if IsSpace(s[0]) {
      SplitTokens(s[1..]);
    } else {
      var n := WordLength(s);
      SplitTokens(s[n..]);
      assert s == s[..n] + s[n..];
      NonSpaceAppend(s[..n], s[n..]);
      NonSpaceOfNoSpace(s[..n]);
      var rest := Split(s[n..]);
      assert Split(s) == [s[..n]] + rest;
      assert ([s[..n]] + rest)[1..] == rest;
    }
  }

  /** `sep.join(xs)`: empty for no items, and otherwise it starts with the
      first item and ends with the last. */
  function Join(sep: string, xs: seq<string>): (r: string)
    ensures xs == [] ==> r == []
    ensures xs != [] ==> |xs[0]| <= |r| && r[..|xs[0]|] == xs[0]
    ensures xs != [] ==> |xs[|xs| - 1]| <= |r| && r[|r| - |xs[|xs| - 1]|..] == xs[|xs| - 1]
  {
    if xs == [] then []
    else if |xs| == 1 then xs[0]
    else xs[0] + sep + Join(sep, xs[1..])
  }

  /** Joining at least two items puts the separator after the first. */
  lemma JoinCons(sep: string, x: string, xs: seq<string>)
    requires xs != []
    ensures Join(sep, [x] + xs) == x + sep + Join(sep, xs)
  {
    assert ([x] + xs)[0] == x && ([x] + xs)[1..] == xs;
  }

  /** A character in front of the first item is in front of the join. */
  lemma JoinGrow(sep: string, c: char, x: string, xs: seq<string>)
    ensures Join(sep, [[c] + x] + xs) == [c] + Join(sep, [x] + xs)
  {
    var y := [c] + x;
    if xs == [] {
      assert [y] + xs == [y] && [x] + xs == [x];
    } else {
      JoinCons(sep, y, xs);
      JoinCons(sep, x, xs);
      Assoc4([c], x, sep, Join(sep, xs));
    }
  }

  /** An empty first item leaves the separator at the front. */
  lemma JoinAfterEmpty(sep: string, xs: seq<string>)
    requires xs != []
    ensures Join(sep, [[]] + xs) == sep + Join(sep, xs)
  {
    JoinCons(sep, [], xs);
    assert [] + sep == sep;
  }

  /** The last character of a concatenation with a non-empty right part is
      that part's last character. */
  lemma LastOfAppend(a: string, b: string)
    requires b != []
    ensures (a + b)[|a + b| - 1] == b[|b| - 1]
  {
  }

  /** A character in front of a non-empty list's first item is in front of
      the join. */
  lemma JoinGrowFirst(sep: string, c: char, xs: seq<string>)
    requires xs != []
    ensures Join(sep, [[c] + xs[0]] + xs[1..]) == [c] + Join(sep, xs)
  {
    JoinGrow(sep, c, xs[0], xs[1..]);
    assert [xs[0]] + xs[1..] == xs;
  }
}
