/** Ordinal string operations the tree code relies on: substring search
    (`IndexOf`, `Contains`), splitting on a separator character (`Split`),
    and single-character replacement (`Replace`). */
module Text {

  /** `sub` occurs in `s` starting at position `i`. */
  predicate OccursAt(s: string, sub: string, i: int) {
    0 <= i && i + |sub| <= |s| && s[i..i + |sub|] == sub
  }

  /** Ordinal substring test; the empty string occurs in every string. */
  predicate Contains(s: string, sub: string) {
    exists i | 0 <= i <= |s| - |sub| :: OccursAt(s, sub, i)
  }

  lemma OccursShift(s: string, sub: string, i: int)
    requires |s| > 0 && i >= 0
    ensures OccursAt(s[1..], sub, i) <==> OccursAt(s, sub, i + 1)
  {
    if 0 <= i && i + |sub| <= |s| - 1 {
      assert s[1..][i..i + |sub|] == s[i + 1..i + 1 + |sub|];
    }
  }

  /** Ordinal position of the first occurrence of `sub` in `s`, or -1 when it
      does not occur. */
  function IndexOf(s: string, sub: string): (r: int)
    ensures r == -1 <==> !Contains(s, sub)
    ensures r != -1 ==> OccursAt(s, sub, r)
    ensures forall j :: 0 <= j < r ==> !OccursAt(s, sub, j)
    decreases |s|
  {
    if |sub| <= |s| && s[..|sub|] == sub then
      assert OccursAt(s, sub, 0);
      0
    else if |s| == 0 then
      -1
    else
      var k := IndexOf(s[1..], sub);
      assert !OccursAt(s, sub, 0);
      assert forall j :: 0 <= j ==> (OccursAt(s[1..], sub, j) <==> OccursAt(s, sub, j + 1)) by {
        forall j | 0 <= j ensures OccursAt(s[1..], sub, j) <==> OccursAt(s, sub, j + 1) {
          OccursShift(s, sub, j);
        }
      }
      if k == -1 then
        assert forall i :: 1 <= i ==> !OccursAt(s, sub, i) by {
          forall i | 1 <= i ensures !OccursAt(s, sub, i) {
            assert !OccursAt(s[1..], sub, i - 1);
          }
        }
        -1
      else
        assert forall j :: 1 <= j < k + 1 ==> !OccursAt(s, sub, j) by {
          forall j | 1 <= j < k + 1 ensures !OccursAt(s, sub, j) {
            assert !OccursAt(s[1..], sub, j - 1);
          }
        }
        k + 1
  }

  /** A string occurs in any text that has it as a slice. */
  lemma ContainsSlice(a: string, sub: string, b: string)
    ensures Contains(a + sub + b, sub)
  {
    var s := a + sub + b;
    assert s[|a|..|a| + |sub|] == sub;
    assert OccursAt(s, sub, |a|);
  }

  /** Containment survives adding text on either side. */
  lemma ContainsWiden(a: string, s: string, b: string, sub: string)
    requires Contains(s, sub)
    ensures Contains(a + s + b, sub)
  {
    var i :| 0 <= i <= |s| - |sub| && OccursAt(s, sub, i);
    var t := a + s + b;
    assert t[|a| + i..|a| + i + |sub|] == s[i..i + |sub|];
    assert OccursAt(t, sub, |a| + i);
  }

  /** No piece contains the separator. */
  predicate SeparatorFree(parts: seq<string>, sep: char) {
    forall k :: 0 <= k < |parts| ==> sep !in parts[k]
  }

  /** The pieces of `s` between occurrences of `sep`, including empty
      pieces, in order. */
  function Split(s: string, sep: char): (parts: seq<string>)
    ensures |parts| >= 1
    ensures SeparatorFree(parts, sep)
    decreases |s|
  {
    if |s| == 0 then
      [""]
    else
      var rest := Split(s[1..], sep);
      if s[0] == sep then
        [""] + rest
      else
        [[s[0]] + rest[0]] + rest[1..]
  }

  /** The pieces glued back together with `sep` between neighbours. */
  function Join(parts: seq<string>, sep: char): string
    requires |parts| >= 1
    decreases |parts|
  {
    if |parts| == 1 then parts[0] else parts[0] + [sep] + Join(parts[1..], sep)
  }

  /** A string with k separators has k + 1 pieces; in particular it has a
      single piece exactly when it has no separator. */
  lemma {:induction false} SplitCount(s: string, sep: char)
    ensures |Split(s, sep)| == multiset(s)[sep] + 1
    decreases |s|
  {
    if |s| > 0 {
      SplitCount(s[1..], sep);
      assert s == [s[0]] + s[1..];
      assert multiset(s) == multiset{s[0]} + multiset(s[1..]);
    }
  }

  /** Prefixing the first piece prefixes the join. */
  lemma JoinPrefixFirst(c: char, parts: seq<string>, sep: char)
    requires |parts| >= 1
    ensures Join([[c] + parts[0]] + parts[1..], sep) == [c] + Join(parts, sep)
  {
    var moved := [[c] + parts[0]] + parts[1..];
    assert moved[1..] == parts[1..];
  }

  /** Joining the pieces of a split gives back the original string. */
  lemma {:induction false} JoinSplit(s: string, sep: char)
    ensures Join(Split(s, sep), sep) == s
    decreases |s|
  {
    if |s| > 0 {
      var rest := Split(s[1..], sep);
      JoinSplit(s[1..], sep);
      if s[0] == sep {
        assert Split(s, sep) == [""] + rest;
        assert ([""] + rest)[1..] == rest;
        assert Join([""] + rest, sep) == [sep] + Join(rest, sep);
      } else {
        assert Split(s, sep) == [[s[0]] + rest[0]] + rest[1..];
        JoinPrefixFirst(s[0], rest, sep);
      }
      assert [s[0]] + s[1..] == s;
    }
  }

  /** A join of two or more pieces starts with the first piece, the
      separator and the second piece, followed by the end of the text or by
      another separator. */
  lemma JoinFirstTwo(parts: seq<string>, sep: char)
    requires |parts| >= 2
    ensures Join(parts, sep)
         == parts[0] + [sep] + parts[1] + (if |parts| == 2 then [] else [sep] + Join(parts[2..], sep))
  {
    var tail := parts[1..];
    assert tail[0] == parts[1];
    if |parts| > 2 {
      assert tail[1..] == parts[2..];
    }
  }

  /** The first occurrence of a character is right after a leading stretch
      that does not hold it. */
  lemma FirstOccurrence(s: string, lead: string, c: char)
    requires c !in lead && |lead| < |s| && s[..|lead|] == lead && s[|lead|] == c
    ensures IndexOf(s, [c]) == |lead|
  {
    var i := |lead|;
    assert s[i..i + 1] == [c];
    assert OccursAt(s, [c], i);
  }

  /** `piece` is the text of `s` right after the first `sep`, running to the
      end of `s` or to the next `sep`. */
  predicate FollowsFirst(s: string, sep: char, piece: string) {
    var i := IndexOf(s, [sep]);
    && 0 <= i && i + 1 + |piece| <= |s|
    && s[i + 1..i + 1 + |piece|] == piece
    && (i + 1 + |piece| == |s| || s[i + 1 + |piece|] == sep)
  }

  /** In a join of two or more pieces whose first two pieces are
      separator-free, the second piece follows the first separator. */
  lemma SecondPieceOfJoin(s: string, parts: seq<string>, sep: char)
    requires |parts| >= 2 && sep !in parts[0] && sep !in parts[1]
    requires Join(parts, sep) == s
    ensures IndexOf(s, [sep]) == |parts[0]|
    ensures FollowsFirst(s, sep, parts[1])
  {
    var p0, p1 := parts[0], parts[1];
    var after := if |parts| == 2 then [] else [sep] + Join(parts[2..], sep);
    JoinFirstTwo(parts, sep);
    assert s == p0 + [sep] + p1 + after;
    var i := |p0|;
    assert s[..i] == p0 && s[i] == sep;
    FirstOccurrence(s, p0, sep);
    assert s[i + 1..i + 1 + |p1|] == p1;
  }

  /** A string without the separator is a single piece. */
  lemma {:induction false} SplitWithoutSeparator(s: string, sep: char)
    requires sep !in s
    ensures Split(s, sep) == [s]
    decreases |s|
  {
    if |s| > 0 {
      SplitWithoutSeparator(s[1..], sep);
      assert [s[0]] + s[1..] == s;
    }
  }

  /** A leading separator-free piece followed by `sep` splits off as the
      first piece. */
  lemma {:induction false} SplitCons(a: string, rest: string, sep: char)
    requires sep !in a
    ensures Split(a + [sep] + rest, sep) == [a] + Split(rest, sep)
    decreases |a|
  {
    var s := a + [sep] + rest;
    if |a| == 0 {
      assert s[1..] == rest;
    } else {
      assert s[1..] == a[1..] + [sep] + rest;
      SplitCons(a[1..], rest, sep);
      assert [s[0]] + a[1..] == a;
    }
  }

  /** Splitting a join of separator-free pieces recovers the pieces. */
  lemma {:induction false} SplitJoin(parts: seq<string>, sep: char)
    requires |parts| >= 1
    requires SeparatorFree(parts, sep)
    ensures Split(Join(parts, sep), sep) == parts
    decreases |parts|
  {
    if |parts| == 1 {
      SplitWithoutSeparator(parts[0], sep);
    } else {
      SplitJoin(parts[1..], sep);
      SplitCons(parts[0], Join(parts[1..], sep), sep);
      assert [parts[0]] + parts[1..] == parts;
    }
  }

  /** The pieces of an address built from separator-free segments are those
      segments. */
  lemma SplitJoinAddress(prefix: seq<string>, suffix: seq<string>, sep: char)
    requires |suffix| >= 1
    requires SeparatorFree(prefix, sep) && SeparatorFree(suffix, sep)
    ensures Split(Join(prefix + suffix, sep), sep) == prefix + suffix
  {
    var parts := prefix + suffix;
    forall k | 0 <= k < |parts| ensures sep !in parts[k] {
      if k < |prefix| {
        assert parts[k] == prefix[k];
      } else {
        assert parts[k] == suffix[k - |prefix|];
      }
    }
    SplitJoin(parts, sep);
  }

  /** A join of two or more pieces contains the separator. */
  lemma JoinHasSeparator(parts: seq<string>, sep: char)
    requires |parts| >= 2
    ensures sep in Join(parts, sep)
  {
    var s := Join(parts, sep);
    assert s == parts[0] + [sep] + Join(parts[1..], sep);
    assert s[|parts[0]|] == sep;
  }

  /** `s` with every `from` character replaced by `to`. */
  function Replace(s: string, from: char, to: char): (r: string)
    ensures |r| == |s|
    ensures forall i :: 0 <= i < |s| && s[i] != from ==> r[i] == s[i]
    ensures forall i :: 0 <= i < |s| && s[i] == from ==> r[i] == to
  {
    seq(|s|, i requires 0 <= i < |s| => if s[i] == from then to else s[i])
  }

  /** After replacing `from` by a different character, no `from` is left. */
  lemma ReplaceRemoves(s: string, from: char, to: char)
    requires from != to
    ensures from !in Replace(s, from, to)
  {
    var r := Replace(s, from, to);
    forall i | 0 <= i < |r| ensures r[i] != from {
    }
  }

  /** Replacing back undoes a replacement when the target character did not
      occur in the original. */
  lemma ReplaceUndo(s: string, from: char, to: char)
    requires to !in s
    ensures Replace(Replace(s, from, to), to, from) == s
  {
  }
}
