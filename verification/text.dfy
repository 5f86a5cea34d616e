/**
  String helpers with the JavaScript semantics the cleaners rely on:
  `String.prototype.indexOf` (used as the substring test `indexOf(q) !== -1`)
  and `Array.prototype.toString` (a comma-join of the elements).
 */
module Text {

  /** `sub` occurs in `s` starting at position `i`. */
  ghost predicate OccursAt(s: string, sub: string, i: int) {
    0 <= i && i + |sub| <= |s| && s[i..i + |sub|] == sub
  }

  /** `s.indexOf(sub, from)`: the first position at or after `from` where `sub` occurs, or -1. */
  function IndexOfFrom(s: string, sub: string, from: nat): (r: int)
    ensures r == -1 || (from <= r && OccursAt(s, sub, r))
    ensures r != -1 ==> forall i :: from <= i < r ==> !OccursAt(s, sub, i)
    ensures r == -1 ==> forall i :: from <= i ==> !OccursAt(s, sub, i)
    decreases |s| - from
  {
    if |s| < from + |sub| then -1
    else if s[from..from + |sub|] == sub then from
    else IndexOfFrom(s, sub, from + 1)
  }

  /** `s.indexOf(sub)`: the first position where `sub` occurs, or -1 when it does not occur. */
  function IndexOf(s: string, sub: string): (r: int)
    ensures r == -1 <==> forall i :: !OccursAt(s, sub, i)
    ensures r != -1 ==> OccursAt(s, sub, r) && forall i :: 0 <= i < r ==> !OccursAt(s, sub, i)
  {
    IndexOfFrom(s, sub, 0)
  }

  /** The cleaners' selection test `s.indexOf(sub) !== -1`. */
  function Contains(s: string, sub: string): (b: bool)
    ensures b <==> exists i :: OccursAt(s, sub, i)
  {
    IndexOf(s, sub) != -1
  }

  /** Whoever contains `a + b` contains both `a` and `b`. */
  lemma ContainsParts(s: string, a: string, b: string)
    requires Contains(s, a + b)
    ensures Contains(s, a) && Contains(s, b)
  {
    var i :| OccursAt(s, a + b, i);
    assert s[i..i + |a|] == (a + b)[..|a|] == a;
    assert s[i + |a|..i + |a| + |b|] == (a + b)[|a|..] == b;
    assert OccursAt(s, a, i);
    assert OccursAt(s, b, i + |a|);
  }

  /** `parts.join(sep)`, which is what `Array.prototype.toString` computes with `sep == ","`. */
  function Join(parts: seq<string>, sep: string): string
    decreases |parts|
  {
    if |parts| == 0 then ""
    else if |parts| == 1 then parts[0]
    else parts[0] + sep + Join(parts[1..], sep)
  }

  /**
    A joined list equals a non-empty word free of the separator's first character
    exactly when the list is that single word.
   */
  lemma JoinIsWord(parts: seq<string>, sep: string, w: string)
    requires |sep| > 0 && |w| > 0 && sep[0] !in w
    ensures Join(parts, sep) == w <==> parts == [w]
  {
    if |parts| >= 2 {
      var j := Join(parts, sep);
      assert j == parts[0] + sep + Join(parts[1..], sep);
      assert j[|parts[0]|] == sep[0];
      assert sep[0] in j;
    }
  }
}
