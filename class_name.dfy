/** The string side of vjs's class helpers: the pattern `(\s|^)cl(\s|$)`
    that hasClass tests and removeClass replaces, the whitespace trim that
    removeClass applies afterwards, and the new class string each helper
    produces, with what these do to the class tokens.
 */
module ClassName {
  import opened ClassTokens

  datatype Option<T> = None | Some(value: T)

  /** Characters with a meaning in a JavaScript regular expression. The
      helpers splice the class name into a pattern unescaped, so only
      names free of these denote themselves. */
  predicate IsRegexSyntax(c: char) {
    c in "^$\\.*+?()[]{}|"
  }

  /** A class name the helpers handle as a literal: non-empty, with no
      whitespace and no regular-expression syntax character. */
  predicate ValidToken(cl: string) {
    |cl| > 0 && forall k :: 0 <= k < |cl| ==> !IsSpace(cl[k]) && !IsRegexSyntax(cl[k])
  }

  lemma ValidTokenIsWord(cl: string)
    requires ValidToken(cl)
    ensures IsWord(cl)
  {
  }

  /** `cl` occurs in `s` at index `i` as a whole whitespace-delimited token. */
  predicate MatchAt(s: string, cl: string, i: int) {
    0 <= i && i + |cl| <= |s| && s[i..i + |cl|] == cl
    && (i == 0 || IsSpace(s[i - 1]))
    && (i + |cl| == |s| || IsSpace(s[i + |cl|]))
  }

  /** The declarative meaning of hasClass. */
  ghost predicate Occurs(s: string, cl: string) {
    exists i :: MatchAt(s, cl, i)
  }

  /** `cl(\s|$)` matches `s[q..e]`. */
  predicate TailAt(s: string, cl: string, q: int, e: int) {
    0 <= q && q + |cl| <= |s| && s[q..q + |cl|] == cl
    && ((q + |cl| < |s| && IsSpace(s[q + |cl|]) && e == q + |cl| + 1)
        || (q + |cl| == |s| && e == |s|))
  }

  /** The pattern `(\s|^)cl(\s|$)` matches `s[p..e]`: either a whitespace
      character at `p`, or the start of input with `p == 0`, then `cl`,
      then a whitespace character or the end of input. */
  ghost predicate PatternAt(s: string, cl: string, p: int, e: int) {
    0 <= p <= e <= |s|
    && ((p < |s| && IsSpace(s[p]) && TailAt(s, cl, p + 1, e))
        || (p == 0 && TailAt(s, cl, 0, e)))
  }

  /** The match that a non-global `replace` uses: none starts further left. */
  ghost predicate LeftmostPattern(s: string, cl: string, p: int, e: int) {
    PatternAt(s, cl, p, e)
    && forall p', e' :: 0 <= p' < p ==> !PatternAt(s, cl, p', e')
  }

  /** Where the pattern match around the token at `i` starts and ends:
      it takes one whitespace character on each side when there is one. */
  function SpanStart(i: nat): nat {
    if i == 0 then 0 else i - 1
  }

  function SpanEnd(s: string, cl: string, i: nat): nat {
    if i + |cl| >= |s| then |s| else i + |cl| + 1
  }

  /** The leftmost whole-token occurrence of `cl` at or after `from`. */
  function FirstMatch(s: string, cl: string, from: nat): (r: Option<nat>)
    ensures r.Some? ==> from <= r.value && MatchAt(s, cl, r.value)
    ensures r.Some? ==> forall j :: from <= j < r.value ==> !MatchAt(s, cl, j)
    ensures r.None? ==> forall j :: from <= j ==> !MatchAt(s, cl, j)
    decreases |s| - from
  {
    if from + |cl| > |s| then None
    else if MatchAt(s, cl, from) then Some(from)
    else FirstMatch(s, cl, from + 1)
  }

  /** The token at `i` is surrounded by a pattern match. */
  lemma PatternOfMatch(s: string, cl: string, i: nat)
    requires ValidToken(cl) && MatchAt(s, cl, i)
    ensures PatternAt(s, cl, SpanStart(i), SpanEnd(s, cl, i))
  {
    assert TailAt(s, cl, i, SpanEnd(s, cl, i));
  }

  /** Every pattern match surrounds a whole-token occurrence, whose span it is. */
  lemma MatchOfPattern(s: string, cl: string, p: int, e: int)
    requires ValidToken(cl) && PatternAt(s, cl, p, e)
    ensures p < |s|
    ensures var q := if IsSpace(s[p]) then p + 1 else p;
            MatchAt(s, cl, q) && SpanStart(q) == p && SpanEnd(s, cl, q) == e
  {
    if p == 0 && TailAt(s, cl, 0, e) {
      assert s[0] == cl[0];
    }
  }

  /** The regular-expression test succeeds exactly when the token occurs. */
  lemma PatternIffOccurs(s: string, cl: string)
    requires ValidToken(cl)
    ensures (exists p, e :: PatternAt(s, cl, p, e)) <==> Occurs(s, cl)
  {
    if exists p, e :: PatternAt(s, cl, p, e) {
      var p, e :| PatternAt(s, cl, p, e);
      MatchOfPattern(s, cl, p, e);
    }
    if Occurs(s, cl) {
      var i :| MatchAt(s, cl, i);
      PatternOfMatch(s, cl, i);
    }
  }

  /** The leftmost pattern match is the span around the leftmost token occurrence. */
  lemma FirstMatchIsLeftmostPattern(s: string, cl: string, p: int, e: int)
    requires ValidToken(cl) && LeftmostPattern(s, cl, p, e)
    ensures FirstMatch(s, cl, 0).Some?
    ensures SpanStart(FirstMatch(s, cl, 0).value) == p
    ensures SpanEnd(s, cl, FirstMatch(s, cl, 0).value) == e
  {
    MatchOfPattern(s, cl, p, e);
    var q := if IsSpace(s[p]) then p + 1 else p;
    var i := FirstMatch(s, cl, 0).value;
    assert i <= q;
    PatternOfMatch(s, cl, i);
    assert p <= SpanStart(i);
  }

  /** `replace(reg, " ")` with the non-global pattern of vanilla.js:77: the
      leftmost match of `(\s|^)cl(\s|$)`, whatever it consumed, becomes a
      single space; without a match the string is returned unchanged. */
  function ReplaceFirst(s: string, cl: string): (r: string)
    requires ValidToken(cl)
    ensures (forall p, e :: !PatternAt(s, cl, p, e)) ==> r == s
    ensures forall p, e :: LeftmostPattern(s, cl, p, e) ==> r == s[..p] + " " + s[e..]
  {
    AllLeftmostPatterns(s, cl);
    match FirstMatch(s, cl, 0)
    case None => s
    case Some(i) =>
      PatternOfMatch(s, cl, i);
      s[..SpanStart(i)] + " " + s[SpanEnd(s, cl, i)..]
  }

  lemma AllLeftmostPatterns(s: string, cl: string)
    requires ValidToken(cl)
    ensures forall p, e :: LeftmostPattern(s, cl, p, e) ==>
      FirstMatch(s, cl, 0).Some? && SpanStart(FirstMatch(s, cl, 0).value) == p
      && SpanEnd(s, cl, FirstMatch(s, cl, 0).value) == e
  {
    forall p, e | LeftmostPattern(s, cl, p, e)
      ensures FirstMatch(s, cl, 0).Some? && SpanStart(FirstMatch(s, cl, 0).value) == p
              && SpanEnd(s, cl, FirstMatch(s, cl, 0).value) == e
    {
      FirstMatchIsLeftmostPattern(s, cl, p, e);
    }
  }

  /** The `^\s*` alternative of the trim pattern (vanilla.js:78), replaced
      by "": the whole leading whitespace run goes. */
  function TrimStart(s: string): (r: string)
    ensures |r| <= |s| && r == s[|s| - |r|..]
    ensures AllSpace(s[..|s| - |r|])
    ensures r == [] || !IsSpace(r[0])
    decreases |s|
  {
    if s != [] && IsSpace(s[0]) then
      var r := TrimStart(s[1..]);
      assert s[..|s| - |r|] == [s[0]] + s[1..][..|s| - 1 - |r|];
      r
    else
      s
  }

  /** The `\s*$` alternative of the trim pattern, replaced by "": the whole
      trailing whitespace run goes. */
  function TrimEnd(s: string): (r: string)
    ensures |r| <= |s| && r == s[..|r|]
    ensures AllSpace(s[|r|..])
    ensures r == [] || !IsSpace(r[|r| - 1])
    decreases |s|
  {
    if s != [] && IsSpace(s[|s| - 1]) then
      var r := TrimEnd(s[..|s| - 1]);
      assert s[|r|..] == s[..|s| - 1][|r|..] + [s[|s| - 1]];
      r
    else
      s
  }

  /** `r` is `s` with whitespace removed at its two ends and nothing else:
      a slice of `s` with only whitespace before and after it. */
  ghost predicate InnerPart(s: string, r: string) {
    exists a :: 0 <= a && a + |r| <= |s| && r == s[a..a + |r|]
                && AllSpace(s[..a]) && AllSpace(s[a + |r|..])
  }

  /** The global replace of `(^\s*)|(\s*$)` by "" in vanilla.js:78. With the
      global flag the pattern matches the leading whitespace run at index 0
      and the trailing whitespace run that reaches the end, nothing in
      between; a string of whitespace only is consumed by the first. */
  function Trim(s: string): (r: string)
    ensures r == [] || (!IsSpace(r[0]) && !IsSpace(r[|r| - 1]))
    ensures |r| <= |s|
  {
    var t := TrimStart(s);
    var r := TrimEnd(t);
    assert r != [] ==> r[0] == t[0];
    r
  }

  /** Trim removes the whitespace at the two ends of its input and keeps
      everything in between as it was. */
  lemma TrimKeepsInnerPart(s: string)
    ensures InnerPart(s, Trim(s))
  {
    var t := TrimStart(s);
    TrimIsSlice(s, t, TrimEnd(t));
  }

  /** The two runs removed in turn leave a slice of the input between
      whitespace on both sides. */
  lemma TrimIsSlice(s: string, t: string, r: string)
    requires |t| <= |s| && t == s[|s| - |t|..] && AllSpace(s[..|s| - |t|])
    requires |r| <= |t| && r == t[..|r|] && AllSpace(t[|r|..])
    ensures InnerPart(s, r)
  {
    var a := |s| - |t|;
    SliceOfSlice(s, t, r);
    assert a + |r| <= |s| && r == s[a..a + |r|] && AllSpace(s[..a]) && AllSpace(s[a + |r|..]);
  }

  /** A prefix `r` of a suffix `t` of `s` is a slice of `s`, and what follows
      `r` in `t` is what follows it in `s`. */
  lemma SliceOfSlice<T>(s: seq<T>, t: seq<T>, r: seq<T>)
    requires |t| <= |s| && t == s[|s| - |t|..]
    requires |r| <= |t| && r == t[..|r|]
    ensures var a := |s| - |t|;
      r == s[a..a + |r|] && t[|r|..] == s[a + |r|..]
  {
  }

  lemma SplitAt(s: string, k: nat)
    requires k <= |s|
    ensures s == s[..k] + s[k..]
  {
  }

  /** Trim drops only whitespace, so it keeps the tokens. */
  lemma TrimKeepsTokens(s: string)
    ensures Tokens(Trim(s)) == Tokens(s)
  {
    var t := TrimStart(s);
    var r := TrimEnd(t);
    SplitAt(s, |s| - |t|);
    LeadingSpaces(s[..|s| - |t|], t);
    SplitAt(t, |r|);
    TrailingSpaces(r, t[|r|..]);
  }

  lemma TrimOfTrimmed(s: string)
    requires s == [] || (!IsSpace(s[0]) && !IsSpace(s[|s| - 1]))
    ensures Trim(s) == s
  {
  }

  // Whole-token occurrences and the whitespace-split tokens

  /** A match in `a` is still one in `a + b` when `a` and `b` meet at whitespace. */
  lemma MatchInPrefix(a: string, b: string, cl: string, j: int)
    requires IsWord(cl) && MatchAt(a, cl, j)
    requires b == [] || IsSpace(b[0]) || IsSpace(a[|a| - 1])
    ensures MatchAt(a + b, cl, j)
  {
    assert (a + b)[j..j + |cl|] == a[j..j + |cl|];
    if j + |cl| == |a| {
      assert a[|a| - 1] == cl[|cl| - 1];
    }
  }

  /** A match in `b` is still one in `a + b`, shifted by `|a|`. */
  lemma MatchInSuffix(a: string, b: string, cl: string, j: int)
    requires IsWord(cl) && MatchAt(b, cl, j)
    requires a == [] || IsSpace(a[|a| - 1]) || IsSpace(b[0])
    ensures MatchAt(a + b, cl, |a| + j)
  {
    assert (a + b)[|a| + j..|a| + j + |cl|] == b[j..j + |cl|];
    if j == 0 {
      assert b[0] == cl[0];
    }
  }

  /** A whole-token occurrence splits the tokens around it. */
  lemma TokensAroundMatch(s: string, cl: string, i: int)
    requires IsWord(cl) && MatchAt(s, cl, i)
    ensures Tokens(s) == Tokens(s[..i]) + [cl] + Tokens(s[i + |cl|..])
  {
    var j := i + |cl|;
    assert s == s[..i] + s[i..j] + s[j..];
    WordBetween(s[..i], cl, s[j..]);
  }

  lemma WordBetween(a: string, w: string, b: string)
    requires IsWord(w) && (a == [] || IsSpace(a[|a| - 1])) && (b == [] || IsSpace(b[0]))
    ensures Tokens(a + w + b) == Tokens(a) + [w] + Tokens(b)
  {
    Assoc(a, w, b);
    WordThenRest(w, b);
    TokensConcat(a, w + b);
    Assoc(Tokens(a), [w], Tokens(b));
  }

  lemma Assoc<T>(x: seq<T>, y: seq<T>, z: seq<T>)
    ensures x + y + z == x + (y + z)
  {
  }

  lemma WordThenRest(w: string, rest: string)
    requires IsWord(w) && (rest == [] || IsSpace(rest[0]))
    ensures Tokens(w + rest) == [w] + Tokens(rest)
  {
    TokensOfWord(w);
    TokensConcat(w, rest);
  }

  lemma {:induction false} TokenGivesMatch(s: string, cl: string)
    requires IsWord(cl) && cl in Tokens(s)
    ensures Occurs(s, cl)
    decreases |s|
  {
    if IsSpace(s[0]) {
      TokenGivesMatch(s[1..], cl);
      var j :| MatchAt(s[1..], cl, j);
      SplitAt(s, 1);
      MatchInSuffix(s[..1], s[1..], cl, j);
    } else {
      var n := WordLen(s);
      WordLenSpec(s);
      if cl == s[..n] {
        assert MatchAt(s, cl, 0);
      } else {
        TokenGivesMatch(s[n..], cl);
        var j :| MatchAt(s[n..], cl, j);
        SplitAt(s, n);
        MatchInSuffix(s[..n], s[n..], cl, j);
      }
    }
  }

  /** hasClass agrees with splitting the class string at whitespace and
      comparing tokens: a name inside a longer token is not found. */
  lemma OccursIffToken(s: string, cl: string)
    requires ValidToken(cl)
    ensures Occurs(s, cl) <==> cl in Tokens(s)
  {
    if Occurs(s, cl) {
      var i :| MatchAt(s, cl, i);
      TokensAroundMatch(s, cl, i);
    }
    if cl in Tokens(s) {
      TokenGivesMatch(s, cl);
    }
  }

  /** The tokens before the leftmost occurrence do not include `cl`. */
  lemma NoTokenBeforeFirst(s: string, cl: string, i: int)
    requires ValidToken(cl) && MatchAt(s, cl, i)
    requires forall j :: 0 <= j < i ==> !MatchAt(s, cl, j)
    ensures cl !in Tokens(s[..i])
  {
    if cl in Tokens(s[..i]) {
      TokenGivesMatch(s[..i], cl);
      var k :| MatchAt(s[..i], cl, k);
      SplitAt(s, i);
      MatchInPrefix(s[..i], s[i..], cl, k);
      assert false;
    }
  }

  // The class string after each helper

  /** addClass (vanilla.js:65-69): append a space and the name unless present. */
  ghost function Added(s: string, cl: string): (r: string)
    ensures Occurs(r, cl)
    ensures |s| <= |r| && r[..|s|] == s
  {
    if Occurs(s, cl) then s
    else
      var t := s + " " + cl;
      assert t[..|s|] == s;
      assert t[|s| + 1..|s| + 1 + |cl|] == cl;
      assert MatchAt(t, cl, |s| + 1);
      t
  }

  /** removeClass (vanilla.js:76-79): replace the leftmost pattern match by
      a space, then trim. */
  function Removed(s: string, cl: string): (r: string)
    requires ValidToken(cl)
    ensures r == [] || (!IsSpace(r[0]) && !IsSpace(r[|r| - 1]))
  {
    Trim(ReplaceFirst(s, cl))
  }

  /** toggleClass (vanilla.js:87-93): exactly one of removeClass and addClass. */
  ghost function Toggled(s: string, cl: string): (r: string)
    requires ValidToken(cl)
    ensures Occurs(s, cl) ==> Tokens(r) == RemoveFirst(Tokens(s), cl)
    ensures !Occurs(s, cl) ==> Tokens(r) == Tokens(s) + [cl]
  {
    RemovedTokens(s, cl);
    AddedTokens(s, cl);
    if Occurs(s, cl) then Removed(s, cl) else Added(s, cl)
  }

  /** Number of times `cl` occurs as a token of `s`. */
  ghost function Count(s: string, cl: string): nat {
    multiset(Tokens(s))[cl]
  }

  /** Adding twice is adding once. */
  lemma AddIdempotent(s: string, cl: string)
    requires ValidToken(cl)
    ensures Added(Added(s, cl), cl) == Added(s, cl)
  {
  }

  /** addClass keeps the old string as a prefix and appends `cl` as one new
      token, only when it was absent. */
  lemma AddedTokens(s: string, cl: string)
    requires ValidToken(cl)
    ensures Tokens(Added(s, cl)) == if Occurs(s, cl) then Tokens(s) else Tokens(s) + [cl]
  {
    if !Occurs(s, cl) {
      AppendedTokens(s, cl);
    }
  }

  lemma AppendedTokens(s: string, cl: string)
    requires ValidToken(cl)
    ensures (s + " " + cl)[..|s|] == s
    ensures Tokens(s + " " + cl) == Tokens(s) + [cl]
  {
    Assoc(s, " ", cl);
    assert (s + (" " + cl))[..|s|] == s;
    JoinedBySpace(s, cl);
    ValidTokenIsWord(cl);
    TokensOfWord(cl);
  }

  /** addClass finds exactly the names it found before, plus `cl`. */
  lemma AddedOtherTokens(s: string, cl: string, d: string)
    requires ValidToken(cl) && ValidToken(d)
    ensures Occurs(Added(s, cl), d) <==> Occurs(s, d) || d == cl
  {
    AddedTokens(s, cl);
    OccursIffToken(s, d);
    OccursIffToken(Added(s, cl), d);
  }

  /** removeClass with an absent name only trims the whitespace at the ends. */
  lemma RemoveAbsent(s: string, cl: string)
    requires ValidToken(cl) && !Occurs(s, cl)
    ensures Removed(s, cl) == Trim(s)
    ensures Tokens(Removed(s, cl)) == Tokens(s)
  {
    TrimKeepsTokens(s);
  }

  /** removeClass deletes exactly the first token equal to `cl`. */
  lemma RemovedTokens(s: string, cl: string)
    requires ValidToken(cl)
    ensures Tokens(Removed(s, cl)) == RemoveFirst(Tokens(s), cl)
  {
    OccursIffToken(s, cl);
    match FirstMatch(s, cl, 0)
    case None =>
      RemoveAbsent(s, cl);
      RemoveFirstMultiset(Tokens(s), cl);
    case Some(i) =>
      RemovedTokensAt(s, cl, i);
  }

  lemma RemovedTokensAt(s: string, cl: string, i: nat)
    requires ValidToken(cl) && FirstMatch(s, cl, 0) == Some(i)
    ensures Tokens(Removed(s, cl)) == RemoveFirst(Tokens(s), cl)
  {
    var r := ReplaceFirst(s, cl);
    FirstTokenRemoved(s, cl, i);
    ReplaceFirstTokens(s, cl, i);
    TrimKeepsTokens(r);
    assert Removed(s, cl) == Trim(r);
  }

  /** Deleting the first token equal to `cl` leaves the tokens on either
      side of its leftmost whole-token occurrence. */
  lemma FirstTokenRemoved(s: string, cl: string, i: nat)
    requires ValidToken(cl) && FirstMatch(s, cl, 0) == Some(i)
    ensures RemoveFirst(Tokens(s), cl) == Tokens(s[..i]) + Tokens(s[i + |cl|..])
  {
    ValidTokenIsWord(cl);
    var before, after := Tokens(s[..i]), Tokens(s[i + |cl|..]);
    TokensAroundMatch(s, cl, i);
    NoTokenBeforeFirst(s, cl, i);
    RemoveFirstSplit(before, cl, after);
  }

  lemma ReplaceFirstTokens(s: string, cl: string, i: nat)
    requires ValidToken(cl) && FirstMatch(s, cl, 0) == Some(i)
    ensures Tokens(ReplaceFirst(s, cl)) == Tokens(s[..i]) + Tokens(s[i + |cl|..])
  {
    ValidTokenIsWord(cl);
    assert ReplaceFirst(s, cl) == s[..SpanStart(i)] + " " + s[SpanEnd(s, cl, i)..];
    ReplacedSpanTokens(s, cl, i);
  }

  /** Replacing the span around a token by a space drops just that token:
      the whitespace the span consumed carried no token. */
  lemma ReplacedSpanTokens(s: string, cl: string, i: nat)
    requires IsWord(cl) && MatchAt(s, cl, i)
    ensures var p, e := SpanStart(i), SpanEnd(s, cl, i);
      Tokens(s[..p] + " " + s[e..]) == Tokens(s[..i]) + Tokens(s[i + |cl|..])
  {
    var j := i + |cl|;
    var p, e := SpanStart(i), SpanEnd(s, cl, i);
    JoinedBySpace(s[..p], s[e..]);
    if i > 0 {
      assert s[..i] == s[..p] + [s[p]];
      TrailingSpaces(s[..p], [s[p]]);
    }
    if e > j {
      assert s[j..] == [s[j]] + s[e..];
      LeadingSpaces([s[j]], s[e..]);
    }
  }

  lemma JoinedBySpace(a: string, b: string)
    ensures Tokens(a + " " + b) == Tokens(a) + Tokens(b)
  {
    var sp := a + " ";
    assert IsSpace(sp[|sp| - 1]);
    TrailingSpaces(a, " ");
    TokensConcat(sp, b);
  }

  /** removeClass takes one copy of `cl` out of the tokens, when there is one,
      and keeps the number of copies of every other name. */
  lemma RemovedCount(s: string, cl: string, d: string)
    requires ValidToken(cl)
    ensures Count(Removed(s, cl), d) == if d == cl && Count(s, cl) > 0 then Count(s, d) - 1 else Count(s, d)
  {
    var ts := Tokens(s);
    RemovedTokens(s, cl);
    RemoveFirstMultiset(ts, cl);
    assert cl in ts <==> Count(s, cl) > 0;
  }

  /** removeClass of a name that occurs at most once leaves it absent. */
  lemma RemoveSoleToken(s: string, cl: string)
    requires ValidToken(cl) && Count(s, cl) <= 1
    ensures !Occurs(Removed(s, cl), cl)
    ensures Count(Removed(s, cl), cl) == 0
  {
    RemovedCount(s, cl, cl);
    OccursIffToken(Removed(s, cl), cl);
  }

  /** With a repeated name, removeClass leaves the later copies in place. */
  lemma RemoveDuplicateSurvives(s: string, cl: string)
    requires ValidToken(cl) && Count(s, cl) >= 2
    ensures Occurs(Removed(s, cl), cl)
    ensures Count(Removed(s, cl), cl) == Count(s, cl) - 1
  {
    RemovedCount(s, cl, cl);
    OccursIffToken(Removed(s, cl), cl);
  }

  /** removeClass leaves every other name as found or not found as before. */
  lemma RemoveOtherTokens(s: string, cl: string, d: string)
    requires ValidToken(cl) && ValidToken(d) && d != cl
    ensures Occurs(Removed(s, cl), d) <==> Occurs(s, d)
  {
    RemovedCount(s, cl, d);
    OccursIffToken(s, d);
    OccursIffToken(Removed(s, cl), d);
  }

  /** A second removeClass of a name that occurred at most once changes nothing. */
  lemma RemoveTwice(s: string, cl: string)
    requires ValidToken(cl) && Count(s, cl) <= 1
    ensures Removed(Removed(s, cl), cl) == Removed(s, cl)
  {
    var r := Removed(s, cl);
    RemoveSoleToken(s, cl);
    RemoveTrimmedAbsent(r, cl);
  }

  /** removeClass of an absent name from a string with no whitespace at its
      ends returns it unchanged. */
  lemma RemoveTrimmedAbsent(r: string, cl: string)
    requires ValidToken(cl) && !Occurs(r, cl)
    requires r == [] || (!IsSpace(r[0]) && !IsSpace(r[|r| - 1]))
    ensures Removed(r, cl) == r
  {
    assert ReplaceFirst(r, cl) == r;
    TrimOfTrimmed(r);
  }

  /** toggleClass flips hasClass for a name that occurs at most once, and
      the name still occurs at most once afterwards. */
  lemma ToggleFlips(s: string, cl: string)
    requires ValidToken(cl) && Count(s, cl) <= 1
    ensures Occurs(Toggled(s, cl), cl) == !Occurs(s, cl)
    ensures Count(Toggled(s, cl), cl) <= 1
  {
    OccursIffToken(s, cl);
    if Occurs(s, cl) {
      RemoveSoleToken(s, cl);
    } else {
        AddedTokens(s, cl);
      assert Count(s, cl) == 0;
    }
  }

  /** Two toggles restore hasClass. */
  lemma ToggleTwice(s: string, cl: string)
    requires ValidToken(cl) && Count(s, cl) <= 1
    ensures Occurs(Toggled(Toggled(s, cl), cl), cl) == Occurs(s, cl)
  {
    ToggleFlips(s, cl);
    ToggleFlips(Toggled(s, cl), cl);
  }

  // Examples

  /** "btn" inside "btn-primary" is not the class "btn". */
  lemma SubstringIsNotToken()
    ensures !Occurs("btn-primary", "btn")
  {
    var s := "btn-primary";
    forall i | 0 <= i && i + 3 <= |s|
      ensures !MatchAt(s, "btn", i)
    {
      if i != 0 {
        assert !IsSpace(s[i - 1]);
      }
    }
  }

  /** Adding "btn" to "btn-primary" makes both names present. */
  lemma AddBesideLongerToken()
    ensures Added("btn-primary", "btn") == "btn-primary btn"
    ensures Occurs("btn-primary btn", "btn") && Occurs("btn-primary btn", "btn-primary")
  {
    SubstringIsNotToken();
    var t := "btn-primary btn";
    assert t[..11] == "btn-primary";
    assert MatchAt(t, "btn-primary", 0);
  }

  /** toggleClass of a repeated name removes one copy and leaves the name found. */
  lemma ToggleDuplicateOnce()
    ensures Occurs("a a", "a") && Toggled("a a", "a") == "a"
  {
    assert MatchAt("a a", "a", 0);
    RemoveFirstCopyOnly();
  }

  /** toggleClass of the last copy removes it. */
  lemma ToggleSoleAway()
    ensures Occurs("a", "a") && Toggled("a", "a") == ""
  {
    assert MatchAt("a", "a", 0);
    assert FirstMatch("a", "a", 0) == Some(0);
    assert ReplaceFirst("a", "a") == " ";
  }

  /** Without the at-most-once condition two toggles need not restore
      hasClass: from "a a" the name is found, and after two toggles it is not. */
  lemma ToggleTwiceDuplicate()
    ensures Count("a a", "a") == 2
    ensures Occurs("a a", "a") && !Occurs(Toggled(Toggled("a a", "a"), "a"), "a")
  {
    ToggleDuplicateOnce();
    ToggleSoleAway();
    TokensOfDoubled();
    assert !MatchAt("", "a", 0);
  }

  lemma TokensOfDoubled()
    ensures Tokens("a a") == ["a", "a"]
  {
    JoinedBySpace("a", "a");
    TokensOfWord("a");
    assert "a" + " " + "a" == "a a";
  }

  /** removeClass takes out only the first of two copies. */
  lemma RemoveFirstCopyOnly()
    ensures Removed("a a", "a") == "a"
  {
    ReplaceFirstOfTwo();
    TrimOfLeadingSpace();
  }

  lemma ReplaceFirstOfTwo()
    ensures ReplaceFirst("a a", "a") == " a"
  {
    assert MatchAt("a a", "a", 0);
    assert FirstMatch("a a", "a", 0) == Some(0);
  }

  lemma TrimOfLeadingSpace()
    ensures Trim(" a") == "a"
  {
    TrimStartOfLeadingSpace();
    assert TrimEnd("a") == "a";
  }

  lemma TrimStartOfLeadingSpace()
    ensures TrimStart(" a") == "a"
  {
    assert " a" == [' '] + "a";
    LeadingSpaceDropped(' ', "a");
  }

  lemma LeadingSpaceDropped(c: char, w: string)
    requires IsSpace(c) && (w == [] || !IsSpace(w[0]))
    ensures TrimStart([c] + w) == w
  {
    assert ([c] + w)[1..] == w;
  }
}
