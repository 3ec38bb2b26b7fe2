/** The Python string operations confr relies on: `str.startswith`, the `in`
    operator on strings, `str.replace`, and the matches of the regular
    expression `\$\{(.*?)\}` that `interpolate_key` iterates over. */
module Strings {

  predicate StartsWith(s: string, p: string) {
    |p| <= |s| && s[..|p|] == p
  }

  predicate EndsWith(s: string, p: string) {
    |p| <= |s| && s[|s| - |p|..] == p
  }

  /** `sub in s`; the empty string occurs in every string. */
  predicate Contains(s: string, sub: string) {
    exists i :: 0 <= i <= |s| - |sub| && OccursAt(s, sub, i)
  }

  predicate OccursAt(s: string, sub: string, i: int) {
    0 <= i <= |s| - |sub| && s[i..i + |sub|] == sub
  }

  /** `s.replace(pat, rep)`: every non-overlapping occurrence of `pat`,
      scanning left to right, becomes `rep`. */
  function Replace(s: string, pat: string, rep: string): string
    decreases |s|
  {
    if pat == [] then ReplaceEmpty(s, rep)
    else if StartsWith(s, pat) then rep + Replace(s[|pat|..], pat, rep)
    else if s == [] then []
    else [s[0]] + Replace(s[1..], pat, rep)
  }

  /** `s.replace("", rep)` puts `rep` before every character and at the end. */
  function ReplaceEmpty(s: string, rep: string): string
  {
    if s == [] then rep else rep + [s[0]] + ReplaceEmpty(s[1..], rep)
  }

  lemma ContainsTail(s: string, sub: string)
    requires s != [] && Contains(s[1..], sub)
    ensures Contains(s, sub)
  {
    var t := s[1..];
    var i :| 0 <= i && OccursAt(t, sub, i);
    assert OccursAt(t, sub, i);
    assert i <= |t| - |sub|;
    assert s[i + 1..i + 1 + |sub|] == t[i..i + |sub|];
    assert OccursAt(s, sub, i + 1);
  }

  lemma ContainsPrefix(s: string, sub: string)
    requires StartsWith(s, sub)
    ensures Contains(s, sub)
  {
    assert OccursAt(s, sub, 0);
  }

  /** Replacing a character by text that lacks it leaves none of it behind. */
  lemma {:induction false} ReplaceCharRemoves(s: string, c: char, rep: string)
    requires c !in rep
    ensures c !in Replace(s, [c], rep)
    decreases |s|
  {
    if StartsWith(s, [c]) {
      ReplaceCharRemoves(s[1..], c, rep);
    } else if s != [] {
      ReplaceCharRemoves(s[1..], c, rep);
      assert s[..1] == [s[0]];
    }
  }

  /** A string in which `pat` does not occur is left as it is. */
  lemma {:induction false} ReplaceAbsent(s: string, pat: string, rep: string)
    requires pat != [] && !Contains(s, pat)
    ensures Replace(s, pat, rep) == s
    decreases |s|
  {
    if StartsWith(s, pat) {
      ContainsPrefix(s, pat);
    } else if s != [] {
      if Contains(s[1..], pat) { ContainsTail(s, pat); }
      ReplaceAbsent(s[1..], pat, rep);
    }
  }

  /** Replacing a character `c` by non-empty text `rep` is undone by the
      reverse replacement when no character of the input occurs in `rep`. */
  lemma {:induction false} ReplaceRoundTrip(s: string, c: char, rep: string)
    requires rep != [] && forall i :: 0 <= i < |s| ==> s[i] !in rep
    ensures Replace(Replace(s, [c], rep), rep, [c]) == s
    decreases |s|
  {
    if s != [] {
      ReplaceRoundTrip(s[1..], c, rep);
      var rest := Replace(s[1..], [c], rep);
      assert s[..1] == [s[0]];
      if s[0] == c {
        assert Replace(s, [c], rep) == rep + rest;
        assert StartsWith(rep + rest, rep) && (rep + rest)[|rep|..] == rest;
      } else {
        assert Replace(s, [c], rep) == [s[0]] + rest;
        assert ([s[0]] + rest)[0] == s[0];
        assert !StartsWith([s[0]] + rest, rep);
        assert ([s[0]] + rest)[1..] == rest;
      }
    }
  }

  /** `c in s` for a one-character string is membership. */
  lemma ContainsChar(s: string, c: char)
    ensures Contains(s, [c]) <==> c in s
  {
    if Contains(s, [c]) {
      var i :| 0 <= i && OccursAt(s, [c], i);
      assert OccursAt(s, [c], i);
      assert s[i..i + 1][0] == s[i];
    }
    if c in s {
      var i :| 0 <= i < |s| && s[i] == c;
      assert s[i..i + 1] == [c];
      assert OccursAt(s, [c], i);
    }
  }

  /** The first position of `c` in `t`. */
  function FirstIndex(t: string, c: char): (j: nat)
    requires c in t
    ensures j < |t| && t[j] == c && c !in t[..j]
  {
    if t[0] == c then 0
    else
      var j := FirstIndex(t[1..], c);
      assert t[..j + 1] == [t[0]] + t[1..][..j];
      j + 1
  }

  /** The group-1 texts of `re.finditer(r"\$\{(.*?)\}", s, re.DOTALL)`, in
      order: at each position a match needs `${` and then the nearest `}`;
      the scan resumes after the `}`. */
  function Matches(s: string): seq<string>
    decreases |s|
  {
    if |s| < 2 then []
    else if s[0] == '$' && s[1] == '{' && '}' in s[2..] then
      var j := FirstIndex(s[2..], '}');
      [s[2..2 + j]] + Matches(s[3 + j..])
    else Matches(s[1..])
  }

  /** A string without `${` has no match. */
  lemma {:induction false} NoOpenerNoMatches(s: string)
    ensures !Contains(s, "${") ==> Matches(s) == []
    decreases |s|
  {
    if |s| >= 2 {
      if s[0] == '$' && s[1] == '{' {
        assert OccursAt(s, "${", 0);
      } else {
        if Contains(s[1..], "${") { ContainsTail(s, "${"); }
        NoOpenerNoMatches(s[1..]);
      }
    }
  }

  /** Every match is brace-free and its `${...}` form occurs in the string. */
  lemma {:induction false} MatchesOccur(s: string)
    ensures forall m :: m in Matches(s) ==> '}' !in m && Contains(s, "${" + m + "}")
    decreases |s|
  {
    if |s| >= 2 {
      if s[0] == '$' && s[1] == '{' && '}' in s[2..] {
        var j := FirstIndex(s[2..], '}');
        var m := s[2..2 + j];
        assert s[2..][..j] == m;
        assert OccursAt(s, "${" + m + "}", 0);
        MatchesOccur(s[3 + j..]);
        forall m' | m' in Matches(s[3 + j..]) ensures Contains(s, "${" + m' + "}") {
          var t := "${" + m' + "}";
          var r := s[3 + j..];
          var i :| 0 <= i && OccursAt(r, t, i);
          assert OccursAt(r, t, i);
          assert i <= |r| - |t|;
          assert s[3 + j + i..3 + j + i + |t|] == r[i..i + |t|];
          assert OccursAt(s, t, 3 + j + i);
        }
      } else {
        MatchesOccur(s[1..]);
        forall m | m in Matches(s[1..]) ensures Contains(s, "${" + m + "}") {
          ContainsTail(s, "${" + m + "}");
        }
      }
    }
  }

  /** The key after each `${m}` has, in turn, been replaced by its value. */
  function SubstituteAll(k: string, ms: seq<string>, vals: seq<string>): string
    requires |ms| == |vals|
    decreases ms
  {
    if ms == [] then k
    else SubstituteAll(Replace(k, "${" + ms[0] + "}", vals[0]), ms[1..], vals[1..])
  }

  /** A key that is exactly one placeholder `${x}` has `x` as its only match
      and becomes the value of `x`. */
  lemma WholeKeyPlaceholder(x: string, v: string)
    requires '}' !in x
    ensures Matches("${" + x + "}") == [x]
    ensures SubstituteAll("${" + x + "}", [x], [v]) == v
  {
    var s := "${" + x + "}";
    var t := s[2..];
    assert t == x + "}";
    var j := FirstIndex(t, '}');
    assert forall i :: 0 <= i < |x| ==> t[i] == x[i];
    assert j == |x|;
    assert t[..j] == x;
    assert s[3 + j..] == [];
    assert Matches(s) == [x] + Matches([]);
    assert StartsWith(s, s);
    assert Replace(s, s, v) == v + Replace([], s, v);
  }
}
