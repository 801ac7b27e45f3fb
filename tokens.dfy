/** Whitespace and the whitespace-split view of a class attribute.

    A class attribute is a string; its class tokens are its maximal runs
    of non-whitespace characters. `Tokens` is the reference definition
    against which the regular-expression-based operations of module
    ClassName are proved.
 */
module ClassTokens {

  /** The JavaScript regular-expression class `\s`: the WhiteSpace and
      LineTerminator code points of ECMAScript (section 22.2.2.9 of
      ECMA-262, CharacterClassEscape). */
  predicate IsSpace(c: char) {
    var n := c as int;
    (0x09 <= n <= 0x0D) || n == 0x20 || n == 0xA0 || n == 0x1680
    || (0x2000 <= n <= 0x200A) || n == 0x2028 || n == 0x2029
    || n == 0x202F || n == 0x205F || n == 0x3000 || n == 0xFEFF
  }

  predicate AllSpace(s: string) {
    forall k :: 0 <= k < |s| ==> IsSpace(s[k])
  }

  /** A non-empty run of non-whitespace characters: what a class token looks like. */
  predicate IsWord(w: string) {
    |w| > 0 && forall k :: 0 <= k < |w| ==> !IsSpace(w[k])
  }

  /** Length of the leading run of non-whitespace characters. */
  function WordLen(s: string): (n: nat)
    ensures n <= |s|
  {
    if s == [] || IsSpace(s[0]) then 0 else 1 + WordLen(s[1..])
  }

  /** The leading run is all non-whitespace and stops at whitespace or at the end. */
  lemma {:induction false} WordLenSpec(s: string)
    ensures forall k :: 0 <= k < WordLen(s) ==> !IsSpace(s[k])
    ensures WordLen(s) == |s| || IsSpace(s[WordLen(s)])
  {
    if s != [] && !IsSpace(s[0]) {
      WordLenSpec(s[1..]);
    }
  }

  /** The class tokens of `s`, in order: its maximal non-whitespace runs. */
  function Tokens(s: string): seq<string>
    decreases |s|
  {
    if s == [] then []
    else if IsSpace(s[0]) then Tokens(s[1..])
    else
      var n := WordLen(s);
      [s[..n]] + Tokens(s[n..])
  }

  /** `ts` with its first element equal to `x` deleted. */
  function RemoveFirst(ts: seq<string>, x: string): seq<string> {
    if ts == [] then []
    else if ts[0] == x then ts[1..]
    else [ts[0]] + RemoveFirst(ts[1..], x)
  }

  /** RemoveFirst takes one copy of `x` out of the multiset of elements,
      or changes nothing when there is none. */
  lemma {:induction false} RemoveFirstMultiset(ts: seq<string>, x: string)
    ensures x !in ts ==> RemoveFirst(ts, x) == ts
    ensures x in ts ==> multiset(RemoveFirst(ts, x)) == multiset(ts) - multiset{x}
  {
    if ts != [] {
      assert ts == [ts[0]] + ts[1..];
      RemoveFirstMultiset(ts[1..], x);
    }
  }

  /** RemoveFirst deletes exactly the first occurrence and keeps the order of the rest. */
  lemma {:induction false} RemoveFirstSplit(a: seq<string>, x: string, b: seq<string>)
    requires x !in a
    ensures RemoveFirst(a + [x] + b, x) == a + b
  {
    var s := a + [x] + b;
    if a == [] {
      assert s[0] == x && s[1..] == b;
    } else {
      assert s[0] == a[0] && a[0] != x;
      assert s[1..] == a[1..] + [x] + b;
      RemoveFirstSplit(a[1..], x, b);
      assert a + b == [a[0]] + (a[1..] + b);
    }
  }

  /** The leading run is determined by its two defining properties. */
  lemma WordLenIs(s: string, m: nat)
    requires m <= |s|
    requires forall k :: 0 <= k < m ==> !IsSpace(s[k])
    requires m == |s| || IsSpace(s[m])
    ensures WordLen(s) == m
  {
    WordLenSpec(s);
  }

  lemma {:induction false} TokensOfSpaces(s: string)
    requires AllSpace(s)
    ensures Tokens(s) == []
    decreases |s|
  {
    if s != [] {
      assert AllSpace(s[1..]);
      TokensOfSpaces(s[1..]);
    }
  }

  lemma TokensOfWord(w: string)
    requires IsWord(w)
    ensures Tokens(w) == [w]
  {
    WordLenIs(w, |w|);
    assert w[|w|..] == [];
    assert w[..|w|] == w;
  }

  /** Two strings that meet at whitespace (or where one is empty) contribute
      their tokens separately: no token spans the seam. */
  lemma {:induction false} TokensConcat(a: string, b: string)
    requires a == [] || b == [] || IsSpace(a[|a| - 1]) || IsSpace(b[0])
    ensures Tokens(a + b) == Tokens(a) + Tokens(b)
    decreases |a|
  {
    if a == [] {
      assert a + b == b;
    } else if b == [] {
      assert a + b == a;
    } else if IsSpace(a[0]) {
      assert (a + b)[1..] == a[1..] + b;
      TokensConcat(a[1..], b);
    } else {
      var n := WordLen(a);
      WordLenSpec(a);
      if n < |a| {
        TokensConcat(a[n..], b);
        WordInsideLeft(a, b, n);
      } else {
        WordAtSeam(a, b);
      }
    }
  }

  /** The first token of `a` ends inside `a`: it is also the first token of
      `a + b`, and what follows it in `a + b` is the rest of `a` then `b`. */
  lemma WordInsideLeft(a: string, b: string, n: nat)
    requires n == WordLen(a) && 0 < n < |a|
    requires Tokens(a[n..] + b) == Tokens(a[n..]) + Tokens(b)
    ensures Tokens(a + b) == Tokens(a) + Tokens(b)
  {
    WordLenSpec(a);
    var ab := a + b;
    WordLenIs(ab, n);
    assert ab[..n] == a[..n];
    assert ab[n..] == a[n..] + b;
    assert Tokens(ab) == [a[..n]] + Tokens(a[n..] + b);
    assert Tokens(a) == [a[..n]] + Tokens(a[n..]);
  }

  /** All of `a` is one word and `b` starts with whitespace. */
  lemma WordAtSeam(a: string, b: string)
    requires a != [] && b != [] && WordLen(a) == |a|
    requires IsSpace(a[|a| - 1]) || IsSpace(b[0])
    ensures Tokens(a + b) == Tokens(a) + Tokens(b)
  {
    WordLenSpec(a);
    var ab := a + b;
    WordLenIs(ab, |a|);
    assert ab[..|a|] == a[..|a|] == a;
    assert ab[|a|..] == b;
    assert a[|a|..] == [];
    assert Tokens(ab) == [a] + Tokens(b);
    assert Tokens(a) == [a] + Tokens([]);
  }

  /** Whitespace in front of a string carries no token. */
  lemma LeadingSpaces(lead: string, s: string)
    requires AllSpace(lead)
    ensures Tokens(lead + s) == Tokens(s)
  {
    TokensOfSpaces(lead);
    TokensConcat(lead, s);
  }

  /** Whitespace after a string carries no token. */
  lemma TrailingSpaces(s: string, trail: string)
    requires AllSpace(trail)
    ensures Tokens(s + trail) == Tokens(s)
  {
    TokensOfSpaces(trail);
    TokensConcat(s, trail);
  }
}
