/** The built-in string operations of the program: `str.replace`, `str.lower`,
    `str.join` and `str.split` with a one-character separator. */
module Strings {

  /** `p` occurs in `s` at index `i`. */
  predicate OccursAt(s: string, p: string, i: nat) {
    i + |p| <= |s| && s[i..i + |p|] == p
  }

  ghost predicate Contains(s: string, p: string) {
    exists i: nat :: OccursAt(s, p, i)
  }

  /** `s.replace(pat, rep)` for a non-empty `pat`: scanning left to right, every
      non-overlapping occurrence of `pat` is replaced by `rep`. */
  function ReplaceAll(s: string, pat: string, rep: string): string
    requires |pat| > 0
    decreases |s|
  {
    if |s| < |pat| then s
    else if s[..|pat|] == pat then rep + ReplaceAll(s[|pat|..], pat, rep)
    else [s[0]] + ReplaceAll(s[1..], pat, rep)
  }

  lemma ContainsInTail(s: string, p: string)
    requires |s| > 0 && Contains(s, p) && !OccursAt(s, p, 0)
    ensures Contains(s[1..], p)
  {
    var i: nat :| OccursAt(s, p, i);
    assert i > 0;
    assert s[1..][i - 1..i - 1 + |p|] == s[i..i + |p|];
    assert OccursAt(s[1..], p, i - 1);
  }

  lemma ContainsFromTail(s: string, p: string, d: nat)
    requires d <= |s| && Contains(s[d..], p)
    ensures Contains(s, p)
  {
    var i: nat :| OccursAt(s[d..], p, i);
    assert s[i + d..i + d + |p|] == s[d..][i..i + |p|];
    assert OccursAt(s, p, i + d);
  }

  /** A text without `pat` is left as it is. */
  lemma {:induction false} ReplaceAbsent(s: string, pat: string, rep: string)
    requires |pat| > 0 && !Contains(s, pat)
    ensures ReplaceAll(s, pat, rep) == s
    decreases |s|
  {
    if |s| >= |pat| {
      assert !OccursAt(s, pat, 0);
      if Contains(s[1..], pat) {
        ContainsFromTail(s, pat, 1);
      }
      ReplaceAbsent(s[1..], pat, rep);
    }
  }

  /** A character that is not in the pattern splits the replacement: no
      occurrence can span it. */
  lemma {:induction false} ReplaceAround(a: string, c: char, b: string, pat: string, rep: string)
    requires |pat| > 0 && c !in pat
    ensures ReplaceAll(a + [c] + b, pat, rep) == ReplaceAll(a, pat, rep) + [c] + ReplaceAll(b, pat, rep)
    decreases |a|, 1
  {
    var s := a + [c] + b;
    if |s| < |pat| {
      ReplaceAroundShort(a, c, b, pat, rep);
    } else if a == [] {
      ReplaceAroundEmpty(c, b, pat, rep);
    } else if s[..|pat|] == pat {
      ReplaceAroundMatch(a, c, b, pat, rep);
    } else {
      ReplaceAroundSkip(a, c, b, pat, rep);
    }
  }

  lemma ReplaceAroundShort(a: string, c: char, b: string, pat: string, rep: string)
    requires |pat| > 0 && |a + [c] + b| < |pat|
    ensures ReplaceAll(a + [c] + b, pat, rep) == ReplaceAll(a, pat, rep) + [c] + ReplaceAll(b, pat, rep)
  {
    assert ReplaceAll(a, pat, rep) == a;
    assert ReplaceAll(b, pat, rep) == b;
  }

  lemma ReplaceAroundEmpty(c: char, b: string, pat: string, rep: string)
    requires |pat| > 0 && c !in pat && |[c] + b| >= |pat|
    ensures ReplaceAll([] + [c] + b, pat, rep) == ReplaceAll([], pat, rep) + [c] + ReplaceAll(b, pat, rep)
  {
    var s := [] + [c] + b;
    assert s[0] == c;
    assert s[..|pat|] != pat;
    assert s[1..] == b;
  }

  lemma {:induction false} ReplaceAroundMatch(a: string, c: char, b: string, pat: string, rep: string)
    requires |pat| > 0 && c !in pat
    requires |a + [c] + b| >= |pat| && (a + [c] + b)[..|pat|] == pat
    ensures ReplaceAll(a + [c] + b, pat, rep) == ReplaceAll(a, pat, rep) + [c] + ReplaceAll(b, pat, rep)
    decreases |a|, 0
  {
    var s := a + [c] + b;
    NoOccurrenceOverSeparator(a, c, b, pat);
    var a' := a[|pat|..];
    assert s[|pat|..] == a' + [c] + b;
    ReplaceAround(a', c, b, pat, rep);
    var x, y := ReplaceAll(a', pat, rep), ReplaceAll(b, pat, rep);
    calc {
      ReplaceAll(s, pat, rep);
      rep + ReplaceAll(a' + [c] + b, pat, rep);
      rep + (x + [c] + y);
      (rep + x) + [c] + y;
      ReplaceAll(a, pat, rep) + [c] + y;
    }
  }

  lemma {:induction false} ReplaceAroundSkip(a: string, c: char, b: string, pat: string, rep: string)
    requires |pat| > 0 && c !in pat && a != []
    requires |a + [c] + b| >= |pat| && (a + [c] + b)[..|pat|] != pat
    ensures ReplaceAll(a + [c] + b, pat, rep) == ReplaceAll(a, pat, rep) + [c] + ReplaceAll(b, pat, rep)
    decreases |a|, 0
  {
    var s := a + [c] + b;
    var a' := a[1..];
    assert s[1..] == a' + [c] + b;
    ReplaceAround(a', c, b, pat, rep);
    var x, y := ReplaceAll(a', pat, rep), ReplaceAll(b, pat, rep);
    if |a| >= |pat| {
      assert a[..|pat|] == s[..|pat|];
    }
    ReplaceSkipsFirst(a, pat, rep);
    calc {
      ReplaceAll(s, pat, rep);
      [s[0]] + ReplaceAll(a' + [c] + b, pat, rep);
      [a[0]] + (x + [c] + y);
      ([a[0]] + x) + [c] + y;
    }
  }

  /** A text that does not start with the pattern keeps its first character. */
  lemma ReplaceSkipsFirst(a: string, pat: string, rep: string)
    requires |pat| > 0 && a != []
    requires |a| >= |pat| ==> a[..|pat|] != pat
    ensures ReplaceAll(a, pat, rep) == [a[0]] + ReplaceAll(a[1..], pat, rep)
  {
    if |a| < |pat| {
      assert [a[0]] + a[1..] == a;
    }
  }

  /** An occurrence at the start of `a + [c] + b` lies inside `a` when `c` is
      not in the pattern. */
  lemma NoOccurrenceOverSeparator(a: string, c: char, b: string, pat: string)
    requires c !in pat
    requires |pat| <= |a + [c] + b| && (a + [c] + b)[..|pat|] == pat
    ensures |pat| <= |a| && a[..|pat|] == pat
  {
    var s := a + [c] + b;
    if |a| < |pat| {
      SeparatorInPrefix(a, c, b, |pat|);
      assert false;
    }
    assert a[..|pat|] == s[..|pat|];
  }

  lemma SeparatorInPrefix(a: string, c: char, b: string, n: nat)
    requires |a| < n <= |a + [c] + b|
    ensures c in (a + [c] + b)[..n]
  {
    assert (a + [c] + b)[..n][|a|] == c;
  }

  /** Replacing a pattern by itself changes nothing. */
  lemma {:induction false} ReplaceBySelf(s: string, pat: string)
    requires |pat| > 0
    ensures ReplaceAll(s, pat, pat) == s
    decreases |s|
  {
    if |s| >= |pat| {
      if s[..|pat|] == pat {
        ReplaceBySelf(s[|pat|..], pat);
        assert pat + s[|pat|..] == s;
      } else {
        ReplaceBySelf(s[1..], pat);
        assert [s[0]] + s[1..] == s;
      }
    }
  }

  /** A replacement at least as long as the pattern never shortens the text, and
      one at most as long never lengthens it. */
  lemma {:induction false} ReplaceLength(s: string, pat: string, rep: string)
    requires |pat| > 0
    ensures |rep| >= |pat| ==> |ReplaceAll(s, pat, rep)| >= |s|
    ensures |rep| <= |pat| ==> |ReplaceAll(s, pat, rep)| <= |s|
    decreases |s|
  {
    if |s| >= |pat| {
      if s[..|pat|] == pat {
        ReplaceLength(s[|pat|..], pat, rep);
      } else {
        ReplaceLength(s[1..], pat, rep);
      }
    }
  }

  /** `s.replace(pat, rep)` returns `s` itself exactly when `pat` does not occur
      in `s` or `rep` is `pat`. */
  lemma {:induction false} ReplaceUnchangedIff(s: string, pat: string, rep: string)
    requires |pat| > 0
    ensures ReplaceAll(s, pat, rep) == s <==> !Contains(s, pat) || rep == pat
    decreases |s|
  {
    if !Contains(s, pat) {
      ReplaceAbsent(s, pat, rep);
    } else if rep == pat {
      ReplaceBySelf(s, pat);
    } else {
      var i: nat :| OccursAt(s, pat, i);
      assert |s| >= |pat|;
      var r := ReplaceAll(s, pat, rep);
      if s[..|pat|] == pat {
        var rest := s[|pat|..];
        ReplaceLength(rest, pat, rep);
        if |rep| == |pat| {
          assert r[..|pat|] == rep;
          assert s[..|pat|] == pat;
        } else {
          assert |r| != |s|;
        }
      } else {
        assert !OccursAt(s, pat, 0);
        ContainsInTail(s, pat);
        ReplaceUnchangedIff(s[1..], pat, rep);
        assert r[1..] == ReplaceAll(s[1..], pat, rep);
      }
    }
  }

  /** While the output of `ReplaceAll` shows only characters of `pat`, it copies
      its input: a replacement would have shown a character of `rep`. */
  lemma {:induction false} ReplaceCopiesPrefix(t: string, pat: string, rep: string, k: nat)
    requires |pat| > 0 && |rep| > 0
    requires forall c :: c in rep ==> c !in pat
    requires k <= |ReplaceAll(t, pat, rep)|
    ensures (forall j :: 0 <= j < k ==> ReplaceAll(t, pat, rep)[j] in pat) ==>
              k <= |t| && ReplaceAll(t, pat, rep)[..k] == t[..k]
    decreases |t|
  {
    var r := ReplaceAll(t, pat, rep);
    if |t| < |pat| || k == 0 {
    } else if t[..|pat|] == pat {
      assert r[0] == rep[0] && r[0] !in pat;
    } else {
      var r' := ReplaceAll(t[1..], pat, rep);
      assert r == [t[0]] + r';
      if forall j :: 0 <= j < k ==> r[j] in pat {
        forall j | 0 <= j < k - 1 ensures r'[j] in pat {
          assert r'[j] == r[j + 1];
        }
        ReplaceCopiesPrefix(t[1..], pat, rep, k - 1);
        assert r[..k] == [t[0]] + r'[..k - 1];
        assert t[..k] == [t[0]] + t[1..][..k - 1];
      }
    }
  }

  /** When no character of `rep` appears in `pat`, `s.replace(pat, rep)` leaves no
      occurrence of `pat` behind. */
  lemma {:induction false} ReplaceLeavesNone(s: string, pat: string, rep: string)
    requires |pat| > 0 && |rep| > 0
    requires forall c :: c in rep ==> c !in pat
    ensures !Contains(ReplaceAll(s, pat, rep), pat)
    decreases |s|
  {
    var r := ReplaceAll(s, pat, rep);
    if |s| < |pat| {
      forall i: nat ensures !OccursAt(r, pat, i) {
      }
    } else if s[..|pat|] == pat {
      var r' := ReplaceAll(s[|pat|..], pat, rep);
      ReplaceLeavesNone(s[|pat|..], pat, rep);
      assert r == rep + r';
      forall i: nat ensures !OccursAt(r, pat, i) {
        if i < |rep| {
          assert r[i] == rep[i] && rep[i] in rep;
          assert pat[0] in pat;
        } else if i + |pat| <= |r| {
          assert r[i..i + |pat|] == r'[i - |rep|..i - |rep| + |pat|];
          assert !OccursAt(r', pat, i - |rep|);
        }
      }
    } else {
      var r' := ReplaceAll(s[1..], pat, rep);
      ReplaceLeavesNone(s[1..], pat, rep);
      assert r == [s[0]] + r';
      forall i: nat ensures !OccursAt(r, pat, i) {
        if i == 0 && |pat| <= |r| {
          if forall j :: 0 <= j < |pat| ==> r[j] in pat {
            ReplaceCopiesPrefix(s, pat, rep, |pat|);
          } else {
            var j :| 0 <= j < |pat| && r[j] !in pat;
            assert pat[j] in pat;
            assert r[..|pat|][j] == r[j];
          }
        } else if 0 < i && i + |pat| <= |r| {
          assert r[i..i + |pat|] == r'[i - 1..i - 1 + |pat|];
          assert !OccursAt(r', pat, i - 1);
        }
      }
    }
  }

  /** ASCII part of `str.lower`. */
  function LowerChar(c: char): char {
    if 'A' <= c <= 'Z' then (c as int + 32) as char else c
  }

  function Lower(s: string): string {
    seq(|s|, i requires 0 <= i < |s| => LowerChar(s[i]))
  }

  /** Lower-casing works character by character, so it distributes over concatenation. */
  lemma LowerConcat(a: string, b: string)
    ensures Lower(a + b) == Lower(a) + Lower(b)
  {
  }

  /** `sep.join(parts)` for a one-character separator. */
  function Join(parts: seq<string>, sep: char): string
  {
    if |parts| == 0 then ""
    else if |parts| == 1 then parts[0]
    else parts[0] + [sep] + Join(parts[1..], sep)
  }

  /** `s.split(sep)` for a one-character separator: always at least one field. */
  function Split(s: string, sep: char): (fields: seq<string>)
    ensures |fields| >= 1
    decreases |s|
  {
    if |s| == 0 then [""]
    else if s[0] == sep then [""] + Split(s[1..], sep)
    else
      var rest := Split(s[1..], sep);
      [[s[0]] + rest[0]] + rest[1..]
  }

  lemma {:induction false} SplitField(t: string, u: string, sep: char)
    requires sep !in t
    ensures Split(t + u, sep) == if |u| > 0 && u[0] == sep then [t] + Split(u[1..], sep)
                                 else [t + Split(u, sep)[0]] + Split(u, sep)[1..]
    decreases |t|
  {
    if |t| > 0 {
      assert (t + u)[0] == t[0] && t[0] != sep;
      assert (t + u)[1..] == t[1..] + u;
      SplitField(t[1..], u, sep);
      var rest := Split(t[1..] + u, sep);
      assert Split(t + u, sep) == [[t[0]] + rest[0]] + rest[1..];
      assert [t[0]] + t[1..] == t;
      if !(|u| > 0 && u[0] == sep) {
        var f := Split(u, sep);
        assert [t[0]] + (t[1..] + f[0]) == t + f[0];
      }
    } else {
      assert t + u == u;
      var f := Split(u, sep);
      assert t + f[0] == f[0];
      assert [f[0]] + f[1..] == f;
    }
  }

  /** Splitting a joined list gives the list back, provided no part contains the
      separator. */
  lemma {:induction false} SplitJoin(parts: seq<string>, sep: char)
    requires |parts| >= 1
    requires forall k :: 0 <= k < |parts| ==> sep !in parts[k]
    ensures Split(Join(parts, sep), sep) == parts
    decreases |parts|
  {
    if |parts| == 1 {
      SplitField(parts[0], "", sep);
      assert parts[0] + "" == parts[0];
    } else {
      var tail := Join(parts[1..], sep);
      SplitJoin(parts[1..], sep);
      assert Join(parts, sep) == parts[0] + ([sep] + tail);
      SplitField(parts[0], [sep] + tail, sep);
      assert ([sep] + tail)[1..] == tail;
      assert parts == [parts[0]] + parts[1..];
    }
  }
}
