/** The parts of Java's String library the request/response core relies on:
    lastIndexOf, indexOf, replace and String.valueOf, each with a
    reference definition or an inverse it is proved against. */
module Strings {

  /** `t` occurs in `s` starting at index `i`. */
  predicate IsAt(s: string, t: string, i: int) {
    0 <= i && i + |t| <= |s| && s[i..i + |t|] == t
  }

  /** `t` occurs nowhere in `s`. */
  ghost predicate Free(s: string, t: string) {
    forall i :: 0 <= i ==> !IsAt(s, t, i)
  }

  /** No character of `s` is `c`. */
  predicate Lacks(s: string, c: char) {
    forall k :: 0 <= k < |s| ==> s[k] != c
  }

  /** Occurrences inside a slice are occurrences in the whole string,
      shifted by the slice's start. */
  lemma IsAtSlice(s: string, a: nat, b: nat, t: string, k: int)
    requires a <= b <= |s|
    requires IsAt(s[a..b], t, k)
    ensures IsAt(s, t, a + k)
  {
    var slice := s[a..b];
    assert 0 <= k && k + |t| <= |slice| && slice[k..k + |t|] == t;
    forall j | 0 <= j < |t| ensures s[a + k + j] == t[j] {
      assert slice[k..k + |t|][j] == slice[k + j];
    }
  }

  /** Java's `s.lastIndexOf(c)`: the index of the last `c`, or -1. */
  function LastIndexOf(s: string, c: char): (i: int)
    ensures -1 <= i < |s|
    ensures 0 <= i ==> s[i] == c
    ensures forall j :: i < j < |s| ==> s[j] != c
    ensures i < 0 <==> Lacks(s, c)
  {
    if |s| == 0 then -1
    else if s[|s| - 1] == c then |s| - 1
    else
      assert s == s[..|s| - 1] + [s[|s| - 1]];
      LastIndexOf(s[..|s| - 1], c)
  }

  /** The text after the last `c` of `s`, or all of `s` when it has no `c`. */
  function AfterLast(s: string, c: char): string {
    s[LastIndexOf(s, c) + 1..]
  }

  /** `AfterLast` is the longest suffix of `s` without `c`: a `c` comes
      right before it unless it is all of `s`. */
  lemma AfterLastIsSuffix(s: string, c: char)
    ensures var r := AfterLast(s, c);
      && Lacks(r, c)
      && |r| <= |s| && r == s[|s| - |r|..]
      && if Lacks(s, c) then r == s else s[|s| - |r| - 1] == c
  {
    var i := LastIndexOf(s, c);
    var r := s[i + 1..];
    assert forall k :: 0 <= k < |r| ==> r[k] == s[i + 1 + k];
  }

  /** A suffix of a string without `c` has no `c` either. */
  lemma LacksSuffix(s: string, n: nat, c: char)
    requires n <= |s| && Lacks(s, c)
    ensures Lacks(s[n..], c)
  {
    assert forall k :: 0 <= k < |s| - n ==> s[n..][k] == s[n + k];
  }

  /** In `a + [c] + b` with no `c` in `b`, the last `c` is the one
      between them. */
  lemma LastIndexOfJoin(a: string, c: char, b: string)
    requires Lacks(b, c)
    ensures LastIndexOf(a + [c] + b, c) == |a|
  {
    var s := a + [c] + b;
    var i := LastIndexOf(s, c);
    assert s[|a|] == c;
  }

  /** Java's `s.indexOf(t, from)` for a non-empty `t`: the first index at or
      after `from` at which `t` occurs, or -1 (`IndexOfFromFirst` says no
      index between `from` and the result holds `t`). */
  function IndexOfFrom(s: string, t: string, from: nat): (i: int)
    requires |t| > 0
    ensures i == -1 || (from <= i && IsAt(s, t, i))
    decreases |s| - from
  {
    if from + |t| > |s| then -1
    else if s[from..from + |t|] == t then from
    else IndexOfFrom(s, t, from + 1)
  }

  /** Java's `s.indexOf(t)`: the search from the start. */
  function IndexOf(s: string, t: string): int
    requires |t| > 0
  {
    IndexOfFrom(s, t, 0)
  }

  /** No occurrence of `t` lies between `from` and the index `IndexOfFrom`
      returns, and none at all from `from` on when it returns -1. */
  lemma {:induction false} IndexOfFromFirst(s: string, t: string, from: nat, k: nat)
    requires |t| > 0 && from <= k
    requires IndexOfFrom(s, t, from) < 0 || k < IndexOfFrom(s, t, from)
    ensures !IsAt(s, t, k)
    decreases |s| - from
  {
    if from + |t| <= |s| && s[from..from + |t|] != t && from < k {
      IndexOfFromFirst(s, t, from + 1, k);
    }
  }

  /** `indexOf` returns -1 exactly when the target occurs nowhere. */
  lemma IndexOfNoneFree(s: string, t: string)
    requires |t| > 0
    ensures IndexOf(s, t) < 0 <==> Free(s, t)
  {
    if IndexOf(s, t) < 0 {
      forall k: nat ensures !IsAt(s, t, k) {
        IndexOfFromFirst(s, t, 0, k);
      }
    }
  }

  /** The pieces of `s[from..]` between the successive leftmost,
      non-overlapping occurrences of `t`. */
  function SplitFrom(s: string, t: string, from: nat): (pieces: seq<string>)
    requires |t| > 0 && from <= |s|
    ensures |pieces| >= 1
    decreases |s| - from
  {
    var i := IndexOfFrom(s, t, from);
    if i < 0 then [s[from..]] else [s[from..i]] + SplitFrom(s, t, i + |t|)
  }

  /** Where `t` occurs from `from` on, the split starts with the piece up
      to the occurrence. */
  lemma SplitFromFound(s: string, t: string, from: nat)
    requires |t| > 0 && from <= |s| && IndexOfFrom(s, t, from) >= 0
    ensures var i := IndexOfFrom(s, t, from);
      SplitFrom(s, t, from) == [s[from..i]] + SplitFrom(s, t, i + |t|)
  {
  }

  /** With no occurrence from `from` on, the split is the rest alone. */
  lemma SplitFromLast(s: string, t: string, from: nat)
    requires |t| > 0 && from <= |s| && IndexOfFrom(s, t, from) < 0
    ensures SplitFrom(s, t, from) == [s[from..]]
  {
  }

  /** `s` cut at the successive leftmost, non-overlapping occurrences of
      `t` (`SplitPiecesFree`: no piece contains `t`). */
  function Split(s: string, t: string): (pieces: seq<string>)
    requires |t| > 0
    ensures |pieces| >= 1
  {
    SplitFrom(s, t, 0)
  }

  /** The piece that ends at the next occurrence of `t`, or at the end of
      `s`, holds no `t`. */
  lemma PieceFree(s: string, t: string, from: nat, end: nat)
    requires |t| > 0 && from <= end <= |s|
    requires var i := IndexOfFrom(s, t, from); if i < 0 then end == |s| else end == i
    ensures Free(s[from..end], t)
  {
    forall k: nat ensures !IsAt(s[from..end], t, k) {
      if IsAt(s[from..end], t, k) {
        IsAtSlice(s, from, end, t, k);
        IndexOfFromFirst(s, t, from, from + k);
      }
    }
  }

  /** No piece of the split of `s[from..]` contains the target. */
  lemma {:induction false} SplitFromPiecesFree(s: string, t: string, from: nat)
    requires |t| > 0 && from <= |s|
    ensures forall k :: 0 <= k < |SplitFrom(s, t, from)| ==> Free(SplitFrom(s, t, from)[k], t)
    decreases |s| - from
  {
    var i := IndexOfFrom(s, t, from);
    if i < 0 {
      PieceFree(s, t, from, |s|);
      SplitFromLast(s, t, from);
      assert s[from..|s|] == s[from..];
    } else {
      PieceFree(s, t, from, i);
      SplitFromPiecesFree(s, t, i + |t|);
      SplitFromFound(s, t, from);
    }
  }

  /** No piece of the split contains the target. */
  lemma SplitPiecesFree(s: string, t: string)
    requires |t| > 0
    ensures forall k :: 0 <= k < |Split(s, t)| ==> Free(Split(s, t)[k], t)
  {
    SplitFromPiecesFree(s, t, 0);
  }

  /** The pieces glued back together with `sep` between neighbours. */
  function Join(pieces: seq<string>, sep: string): string {
    if |pieces| == 0 then ""
    else if |pieces| == 1 then pieces[0]
    else pieces[0] + sep + Join(pieces[1..], sep)
  }

  /** Joining a piece in front of a non-empty list puts one separator after it. */
  lemma JoinCons(piece: string, pieces: seq<string>, sep: string)
    requires |pieces| >= 1
    ensures Join([piece] + pieces, sep) == piece + sep + Join(pieces, sep)
  {
    assert ([piece] + pieces)[1..] == pieces;
  }

  /** The loop inside Java's `s.replace(target, replacement)` from index
      `from` on: copy the text up to the next occurrence found by `indexOf`,
      write the replacement, and go on after the occurrence; at the end copy
      the rest. */
  function ReplaceFrom(s: string, target: string, replacement: string, from: nat): string
    requires |target| > 0 && from <= |s|
    decreases |s| - from
  {
    var i := IndexOfFrom(s, target, from);
    if i < 0 then s[from..]
    else s[from..i] + replacement + ReplaceFrom(s, target, replacement, i + |target|)
  }

  /** Java's `s.replace(target, replacement)` for a non-empty target: every
      occurrence that does not overlap an already replaced one, scanning
      left to right, is replaced. */
  function ReplaceAll(s: string, target: string, replacement: string): string
    requires |target| > 0
  {
    ReplaceFrom(s, target, replacement, 0)
  }

  /** A string without the target is left as it is. */
  lemma ReplaceAllFree(s: string, t: string, r: string)
    requires |t| > 0 && Free(s, t)
    ensures ReplaceAll(s, t, r) == s
  {
    IndexOfNoneFree(s, t);
  }

  /** Where `t` occurs from `from` on, the replace loop copies up to the
      occurrence, writes `r` and goes on after it. */
  lemma ReplaceFromFound(s: string, t: string, r: string, from: nat)
    requires |t| > 0 && from <= |s| && IndexOfFrom(s, t, from) >= 0
    ensures var i := IndexOfFrom(s, t, from);
      ReplaceFrom(s, t, r, from) == s[from..i] + r + ReplaceFrom(s, t, r, i + |t|)
  {
  }

  /** With no occurrence left, the replace loop copies the rest, which is
      also the one piece of the split. */
  lemma ReplaceFromJoinLast(s: string, t: string, r: string, from: nat)
    requires |t| > 0 && from <= |s| && IndexOfFrom(s, t, from) < 0
    ensures ReplaceFrom(s, t, r, from) == Join(SplitFrom(s, t, from), r)
  {
    SplitFromLast(s, t, from);
  }

  /** One round of the replace loop adds one piece and one separator. */
  lemma ReplaceFromJoinStep(s: string, t: string, r: string, from: nat)
    requires |t| > 0 && from <= |s| && IndexOfFrom(s, t, from) >= 0
    requires var next := IndexOfFrom(s, t, from) + |t|;
      ReplaceFrom(s, t, r, next) == Join(SplitFrom(s, t, next), r)
    ensures ReplaceFrom(s, t, r, from) == Join(SplitFrom(s, t, from), r)
  {
    var i := IndexOfFrom(s, t, from);
    ReplaceFromFound(s, t, r, from);
    SplitFromFound(s, t, from);
    JoinCons(s[from..i], SplitFrom(s, t, i + |t|), r);
  }

  /** From any index on, the replace loop produces the split of the rest
      at the target, rejoined with the replacement. */
  lemma {:induction false} ReplaceFromIsJoin(s: string, t: string, r: string, from: nat)
    requires |t| > 0 && from <= |s|
    ensures ReplaceFrom(s, t, r, from) == Join(SplitFrom(s, t, from), r)
    decreases |s| - from
  {
    var i := IndexOfFrom(s, t, from);
    if i < 0 {
      ReplaceFromJoinLast(s, t, r, from);
    } else {
      ReplaceFromIsJoin(s, t, r, i + |t|);
      ReplaceFromJoinStep(s, t, r, from);
    }
  }

  /** The replace-all result is the split of `s` at the target, rejoined
      with the replacement: every leftmost non-overlapping occurrence is
      replaced and nothing else changes. */
  lemma ReplaceAllIsJoin(s: string, t: string, r: string)
    requires |t| > 0
    ensures ReplaceAll(s, t, r) == Join(Split(s, t), r)
  {
    ReplaceFromIsJoin(s, t, r, 0);
  }

  /** The text from `from` on is the part up to `i`, the part up to `j`,
      and the rest. */
  lemma ThreeParts(s: string, from: nat, i: nat, j: nat)
    requires from <= i <= j <= |s|
    ensures s[from..] == s[from..i] + s[i..j] + s[j..]
  {
  }

  /** Replacing the target by itself from `from` on gives back `s[from..]`. */
  lemma {:induction false} ReplaceFromIdentity(s: string, t: string, from: nat)
    requires |t| > 0 && from <= |s|
    ensures ReplaceFrom(s, t, t, from) == s[from..]
    decreases |s| - from
  {
    var i := IndexOfFrom(s, t, from);
    if i >= 0 {
      var j := i + |t|;
      ReplaceFromIdentity(s, t, j);
      ReplaceFromFound(s, t, t, from);
      ThreeParts(s, from, i, j);
    }
  }

  /** Replacing the target by itself changes nothing. */
  lemma ReplaceAllIdentity(s: string, t: string)
    requires |t| > 0
    ensures ReplaceAll(s, t, t) == s
  {
    ReplaceFromIdentity(s, t, 0);
    assert s[0..] == s;
  }

  /** Splitting at `t` and joining with `t` gives back the string. */
  lemma SplitJoin(s: string, t: string)
    requires |t| > 0
    ensures Join(Split(s, t), t) == s
  {
    ReplaceAllIsJoin(s, t, t);
    ReplaceAllIdentity(s, t);
  }

  /** The UTF-16 code units one character takes: two outside the Basic
      Multilingual Plane, one inside it. */
  function CodeUnits(c: char): nat {
    if c as int >= 0x1_0000 then 2 else 1
  }

  /** Java's `s.length()`: the number of UTF-16 code units of `s`. */
  function Utf16Length(s: string): (n: nat)
    ensures |s| <= n <= 2 * |s|
  {
    if |s| == 0 then 0 else CodeUnits(s[0]) + Utf16Length(s[1..])
  }

  /** Java's length equals the character count exactly when every
      character lies in the Basic Multilingual Plane. */
  lemma {:induction false} Utf16LengthIsCount(s: string)
    ensures Utf16Length(s) == |s| <==> forall k :: 0 <= k < |s| ==> s[k] as int < 0x1_0000
  {
    if |s| > 0 {
      Utf16LengthIsCount(s[1..]);
      assert forall k :: 1 <= k < |s| ==> s[k] == s[1..][k - 1];
    }
  }

  /** The character of a decimal digit. */
  function Digit(d: nat): (c: char)
    requires d < 10
    ensures '0' <= c <= '9' && c as int - '0' as int == d
  {
    ('0' as int + d) as char
  }

  /** Java's `String.valueOf(n)` for a non-negative int: decimal digits
      without leading zeros. */
  function DecimalString(n: nat): (r: string)
    ensures |r| >= 1
    ensures forall k :: 0 <= k < |r| ==> '0' <= r[k] <= '9'
    ensures (r[0] == '0') == (n == 0)
  {
    if n < 10 then [Digit(n)] else DecimalString(n / 10) + [Digit(n % 10)]
  }

  /** The value of a string of decimal digits. */
  function ParseDecimal(s: string): nat
    requires forall k :: 0 <= k < |s| ==> '0' <= s[k] <= '9'
  {
    if |s| == 0 then 0
    else ParseDecimal(s[..|s| - 1]) * 10 + (s[|s| - 1] as int - '0' as int)
  }

  /** Reading the decimal string back gives the number. */
  lemma {:induction false} DecimalRoundTrip(n: nat)
    ensures ParseDecimal(DecimalString(n)) == n
  {
    var r := DecimalString(n);
    if n >= 10 {
      var q, d := n / 10, n % 10;
      DecimalRoundTrip(q);
      assert r == DecimalString(q) + [Digit(d)];
      assert r[..|r| - 1] == DecimalString(q);
      assert ParseDecimal(r) == q * 10 + d;
    }
  }

  /** Two numbers have the same decimal string exactly when they are equal. */
  lemma DecimalInjective(n: nat, m: nat)
    ensures DecimalString(n) == DecimalString(m) <==> n == m
  {
    DecimalRoundTrip(n);
    DecimalRoundTrip(m);
  }
}
