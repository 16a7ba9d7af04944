/**
 * The few JavaScript string operations the source relies on, as total
 * functions over `string` (= `seq<char>`): `split(sep)[0]`, `trim`,
 * `includes`, `endsWith`, `substring` with its clamping, and `replace`
 * with a global literal pattern (`s.replace(/lit/g, rep)`).
 */
module Text {
  import opened Chars

  /** The characters of `s` up to its first `sep`, scanned one by one. */
  function UpTo(s: string, sep: char): string {
    if s == [] then []
    else if s[0] == sep then []
    else [s[0]] + UpTo(s[1..], sep)
  }

  /** `UpTo` keeps a prefix without the separator, and stops only at one. */
  lemma {:induction false} UpToShape(s: string, sep: char)
    ensures var r := UpTo(s, sep);
      r <= s && sep !in r && (|r| < |s| ==> s[|r|] == sep)
    decreases |s|
  {
    if s != [] && s[0] != sep {
      UpToShape(s[1..], sep);
      assert s == [s[0]] + s[1..];
    }
  }

  /** `s.split(sep)[0]` for a one-character separator: the text before the first `sep`. */
  function BeforeFirst(s: string, sep: char): (r: string)
    ensures r <= s
    ensures sep !in r
    ensures |r| < |s| ==> s[|r|] == sep
  {
    UpToShape(s, sep);
    UpTo(s, sep)
  }

  /** Text before the separator passes through `UpTo` untouched. */
  lemma {:induction false} UpToAppend(a: string, b: string, sep: char)
    requires sep !in a
    ensures UpTo(a + b, sep) == a + UpTo(b, sep)
    decreases |a|
  {
    if a != [] {
      var ab, tl := a + b, a[1..];
      assert a[0] in a;
      UpToAppend(tl, b, sep);
      assert ab[0] == a[0] && ab[1..] == tl + b;
      assert a == [a[0]] + tl;
    } else {
      assert a + b == b;
    }
  }

  /** Text before the separator passes through `split(sep)[0]` untouched. */
  lemma BeforeFirstAppend(a: string, b: string, sep: char)
    requires sep !in a
    ensures BeforeFirst(a + b, sep) == a + BeforeFirst(b, sep)
  {
    UpToAppend(a, b, sep);
  }

  /** `split(sep)[0]` stops at the first separator. */
  lemma BeforeFirstAt(a: string, sep: char, b: string)
    requires sep !in a
    ensures BeforeFirst(a + [sep] + b, sep) == a
  {
    BeforeFirstAppend(a, [sep] + b, sep);
    assert a + [sep] + b == a + ([sep] + b);
  }

  /** Neither the first nor the last character is white space. */
  predicate NoOuterSpace(s: string) {
    s == [] || (!IsSpace(s[0]) && !IsSpace(s[|s| - 1]))
  }

  /** Leading white space removed: what is cut off is white space, and what is kept starts with none. */
  function TrimStart(s: string): (r: string)
    ensures |r| <= |s| && r == s[|s| - |r|..]
    ensures r == [] || !IsSpace(r[0])
    ensures forall k :: 0 <= k < |s| - |r| ==> IsSpace(s[k])
  {
    if s != [] && IsSpace(s[0]) then TrimStart(s[1..]) else s
  }

  /** Trailing white space removed: what is cut off is white space, and what is kept ends with none. */
  function TrimEnd(s: string): (r: string)
    ensures r <= s
    ensures r == [] || !IsSpace(r[|r| - 1])
    ensures forall k :: |r| <= k < |s| ==> IsSpace(s[k])
  {
    if s != [] && IsSpace(s[|s| - 1]) then TrimEnd(s[..|s| - 1]) else s
  }

  /** `r` occurs in `s` at `i`, with nothing but white space before and after it. */
  predicate Framed(s: string, i: int, r: string) {
    && 0 <= i <= |s| && r <= s[i..]
    && (forall k :: 0 <= k < i ==> IsSpace(s[k]))
    && (forall k :: i + |r| <= k < |s| ==> IsSpace(s[k]))
  }

  /**
   * `String.prototype.trim`: the inner part of the string, cut out whole,
   * with only white space before and after it.
   */
  function Trim(s: string): (r: string)
    ensures |r| <= |s|
    ensures NoOuterSpace(r)
    ensures exists i :: Framed(s, i, r)
  {
    var t := TrimStart(s);
    var r := TrimEnd(t);
    assert r != [] ==> r[0] == t[0];
    TrimBothEnds(s);
    r
  }

  /** Cutting leading, then trailing white space leaves the part framed by white space. */
  lemma TrimBothEnds(s: string)
    ensures Framed(s, |s| - |TrimStart(s)|, TrimEnd(TrimStart(s)))
  {
    var t := TrimStart(s);
    var r := TrimEnd(t);
    var i := |s| - |t|;
    assert forall k :: i + |r| <= k < |s| ==> s[k] == t[k - i];
  }

  /** Trimming a string of white space leaves nothing. */
  lemma {:induction false} TrimBlank(s: string)
    requires forall i :: 0 <= i < |s| ==> IsSpace(s[i])
    ensures TrimStart(s) == [] && Trim(s) == []
    decreases |s|
  {
    if s != [] {
      TrimBlank(s[1..]);
    }
  }

  /** Trimming keeps a contiguous part of the string, so it brings in no character. */
  lemma TrimChars(s: string)
    ensures forall c :: c in Trim(s) ==> c in s
  {
    var r := Trim(s);
    var i :| Framed(s, i, r);
    forall c | c in r ensures c in s {
      var j :| 0 <= j < |r| && r[j] == c;
      assert s[i..][j] == c;
    }
  }

  /** A string without outer white space is its own trim. */
  lemma TrimFixed(s: string)
    requires NoOuterSpace(s)
    ensures Trim(s) == s
  {
  }

  /** `s.includes(pat)`. */
  predicate Contains(s: string, pat: string)
    decreases |s|
  {
    |pat| <= |s| && (s[..|pat|] == pat || Contains(s[1..], pat))
  }

  predicate OccursAt(s: string, pat: string, i: int) {
    0 <= i && i + |pat| <= |s| && s[i..i + |pat|] == pat
  }

  /** `includes` holds exactly when the pattern occurs at some index. */
  lemma {:induction false} ContainsIffOccurs(s: string, pat: string)
    ensures Contains(s, pat) <==> exists i :: OccursAt(s, pat, i)
    decreases |s|
  {
    if |pat| <= |s| {
      if s[..|pat|] == pat {
        assert OccursAt(s, pat, 0);
      } else {
        ContainsIffOccurs(s[1..], pat);
        if Contains(s[1..], pat) {
          var i :| OccursAt(s[1..], pat, i);
          assert s[1..][i..i + |pat|] == s[i + 1..i + 1 + |pat|];
          assert OccursAt(s, pat, i + 1);
        }
        if i :| OccursAt(s, pat, i) {
          assert i != 0;
          assert s[1..][i - 1..i - 1 + |pat|] == s[i..i + |pat|];
          assert OccursAt(s[1..], pat, i - 1);
        }
      }
    } else {
      if i :| OccursAt(s, pat, i) {
        assert false;
      }
    }
  }

  /** `s.endsWith(suffix)`. */
  predicate EndsWith(s: string, suffix: string) {
    |suffix| <= |s| && s[|s| - |suffix|..] == suffix
  }

  /** Clamping of a `substring` index into `[0, n]`. */
  function Clamp(i: int, n: nat): (r: nat)
    ensures r <= n
  {
    if i < 0 then 0 else if i > n then n else i
  }

  /** `s.substring(start, end)`: both indices clamped, swapped if out of order. */
  function JsSubstring(s: string, start: int, end: int): string {
    var a, b := Clamp(start, |s|), Clamp(end, |s|);
    if a <= b then s[a..b] else s[b..a]
  }

  /** `s.replace(/[...]/g, '')` for a class of single characters: every character of `cs` removed. */
  function RemoveAll(s: string, cs: set<char>): (r: string)
    ensures |r| <= |s|
  {
    if s == [] then []
    else (if s[0] in cs then [] else [s[0]]) + RemoveAll(s[1..], cs)
  }

  /** The characters left are exactly those of `s` outside `cs`. */
  lemma {:induction false} RemoveAllMembers(s: string, cs: set<char>)
    ensures forall c :: c in RemoveAll(s, cs) <==> c in s && c !in cs
    decreases |s|
  {
    if s != [] {
      RemoveAllMembers(s[1..], cs);
      assert s == [s[0]] + s[1..];
    }
  }

  /** Deleting works piece by piece: the characters kept stay in their order. */
  lemma {:induction false} RemoveAllAppend(a: string, b: string, cs: set<char>)
    ensures RemoveAll(a + b, cs) == RemoveAll(a, cs) + RemoveAll(b, cs)
    decreases |a|
  {
    if a == [] {
      assert a + b == b;
    } else {
      var head := if a[0] in cs then [] else [a[0]];
      assert (a + b)[0] == a[0] && (a + b)[1..] == a[1..] + b;
      assert RemoveAll(a + b, cs) == head + RemoveAll(a[1..] + b, cs);
      RemoveAllAppend(a[1..], b, cs);
      assert RemoveAll(a, cs) == head + RemoveAll(a[1..], cs);
      assert head + (RemoveAll(a[1..], cs) + RemoveAll(b, cs)) == (head + RemoveAll(a[1..], cs)) + RemoveAll(b, cs);
    }
  }

  /** One character is deleted if it is in the class and kept otherwise. */
  lemma RemoveAllChar(c: char, cs: set<char>)
    ensures RemoveAll([c], cs) == if c in cs then [] else [c]
  {
  }

  /**
   * `s.replace(/pat/g, rep)` for a non-empty literal pattern: a left-to-right
   * scan replacing non-overlapping occurrences.
   */
  function ReplaceAll(s: string, pat: string, rep: string): (r: string)
    requires |pat| > 0
    ensures |pat| == |rep| ==> |r| == |s|
    decreases |s|
  {
    if |s| < |pat| then s
    else if s[..|pat|] == pat then rep + ReplaceAll(s[|pat|..], pat, rep)
    else [s[0]] + ReplaceAll(s[1..], pat, rep)
  }

  /** Replacing an absent pattern changes nothing. */
  lemma {:induction false} ReplaceAllAbsent(s: string, pat: string, rep: string)
    requires |pat| > 0 && !Contains(s, pat)
    ensures ReplaceAll(s, pat, rep) == s
    decreases |s|
  {
    if |s| >= |pat| {
      ReplaceAllAbsent(s[1..], pat, rep);
    }
  }

  /** A string without the pattern's first character holds no occurrence to replace. */
  lemma {:induction false} ReplaceAllWithoutHead(s: string, pat: string, rep: string)
    requires |pat| > 0 && pat[0] !in s
    ensures ReplaceAll(s, pat, rep) == s
    decreases |s|
  {
    if |s| >= |pat| {
      assert s[..|pat|][0] == s[0] != pat[0];
      assert s[1..] == s[1..] && forall c :: c in s[1..] ==> c in s;
      ReplaceAllWithoutHead(s[1..], pat, rep);
    }
  }

  /** Replacing one character by another, position by position. */
  lemma {:induction false} ReplaceCharPointwise(s: string, x: char, z: char)
    ensures |ReplaceAll(s, [x], [z])| == |s|
    ensures forall i :: 0 <= i < |s| ==>
      ReplaceAll(s, [x], [z])[i] == if s[i] == x then z else s[i]
    decreases |s|
  {
    if |s| >= 1 {
      ReplaceCharPointwise(s[1..], x, z);
    }
  }

  /**
   * Replacing the pair `xy` by `zy`, position by position: since `x != y`
   * two occurrences of `xy` cannot overlap, so exactly the `x` of each
   * occurrence becomes `z` and every other character is kept.
   */
  lemma {:induction false} ReplacePairPointwise(s: string, x: char, y: char, z: char)
    requires x != y
    ensures |ReplaceAll(s, [x, y], [z, y])| == |s|
    ensures forall i {:trigger ReplaceAll(s, [x, y], [z, y])[i]} :: 0 <= i < |s| ==>
      ReplaceAll(s, [x, y], [z, y])[i] == if i + 1 < |s| && s[i] == x && s[i + 1] == y then z else s[i]
    decreases |s|
  {
    var r := ReplaceAll(s, [x, y], [z, y]);
    if |s| >= 2 {
      if s[..2] == [x, y] {
        ReplacePairPointwise(s[2..], x, y, z);
        assert r == [z, y] + ReplaceAll(s[2..], [x, y], [z, y]);
        forall i | 0 <= i < |s|
          ensures r[i] == if i + 1 < |s| && s[i] == x && s[i + 1] == y then z else s[i]
        {
          if i >= 2 {
            var t, j := s[2..], i - 2;
            assert r[i] == ReplaceAll(t, [x, y], [z, y])[j];
            assert s[i] == t[j] && (j + 1 < |t| ==> s[i + 1] == t[j + 1]);
          } else if i == 1 {
            assert s[1] == y;
          } else {
            assert s[0] == x && s[1] == y;
          }
        }
      } else {
        ReplacePairPointwise(s[1..], x, y, z);
        assert r == [s[0]] + ReplaceAll(s[1..], [x, y], [z, y]);
        forall i | 0 <= i < |s|
          ensures r[i] == if i + 1 < |s| && s[i] == x && s[i + 1] == y then z else s[i]
        {
          if i >= 1 {
            var t, j := s[1..], i - 1;
            assert r[i] == ReplaceAll(t, [x, y], [z, y])[j];
            assert s[i] == t[j] && (j + 1 < |t| ==> s[i + 1] == t[j + 1]);
          } else {
            assert !(s[0] == x && s[1] == y);
          }
        }
      }
    }
  }

  /** Replacing the pair `xy` by `zy` brings in no character other than `z`. */
  lemma ReplacePairChars(s: string, x: char, y: char, z: char)
    requires x != y
    ensures forall c :: c in ReplaceAll(s, [x, y], [z, y]) ==> c in s || c == z
  {
    var r := ReplaceAll(s, [x, y], [z, y]);
    ReplacePairPointwise(s, x, y, z);
    forall c | c in r ensures c in s || c == z {
      var i :| 0 <= i < |r| && r[i] == c;
      assert s[i] in s;
    }
  }

  /** After replacing the pair `xy` by `zy` (z differing from both) no `xy` is left. */
  lemma {:induction false} ReplacePairRemovesPair(s: string, x: char, y: char, z: char)
    requires x != y && z != x && z != y
    ensures !Contains(ReplaceAll(s, [x, y], [z, y]), [x, y])
    decreases |s|
  {
    var r := ReplaceAll(s, [x, y], [z, y]);
    if |s| >= 2 {
      var rest: string;
      if s[..2] == [x, y] {
        rest := ReplaceAll(s[2..], [x, y], [z, y]);
        ReplacePairRemovesPair(s[2..], x, y, z);
        assert r == [z, y] + rest;
        assert r[1..] == [y] + rest;
        assert r[..2] != [x, y];
        assert |r| >= 3 ==> r[1..][..2] != [x, y];
        assert r[1..][1..] == rest;
      } else {
        rest := ReplaceAll(s[1..], [x, y], [z, y]);
        ReplacePairRemovesPair(s[1..], x, y, z);
        ReplacePairPointwise(s[1..], x, y, z);
        assert r == [s[0]] + rest;
        assert r[1..] == rest;
        assert r[..2] != [x, y];
      }
    }
  }
}
