/**
 The two string operations the queries use: substring search
 (`String.contains`, which Java defines as `indexOf(sub) >= 0`) and
 `Collectors.joining(sep)`. Strings are sequences of characters.
 */
module Strings {

  /** `sub` occurs in `s` as the contiguous block starting at position `i`. */
  predicate OccursAt(s: string, sub: string, i: int) {
    0 <= i <= |s| - |sub| && s[i..i + |sub|] == sub
  }

  /** `sub` occurs as a contiguous block of `s`. */
  predicate Contains(s: string, sub: string) {
    exists i :: 0 <= i <= |s| - |sub| && OccursAt(s, sub, i)
  }

  /** `String.indexOf`: the first position at which `sub` occurs in `s`,
      or -1 when it does not occur. */
  method IndexOf(s: string, sub: string) returns (r: int)
    ensures r == -1 || 0 <= r <= |s| - |sub|
    ensures r == -1 <==> !Contains(s, sub)
    ensures r >= 0 ==> OccursAt(s, sub, r)
    ensures r >= 0 ==> forall j :: 0 <= j < r ==> !OccursAt(s, sub, j)
  {
    var i := 0;
    while i + |sub| <= |s|
      invariant 0 <= i
      invariant forall j :: 0 <= j < i ==> !OccursAt(s, sub, j)
      decreases |s| - i
    {
      if s[i..i + |sub|] == sub {
        assert OccursAt(s, sub, i);
        return i;
      }
      i := i + 1;
    }
    return -1;
  }

  /** Sum of the lengths of `parts`. */
  function TotalLength(parts: seq<string>): nat {
    if parts == [] then 0 else |parts[0]| + TotalLength(parts[1..])
  }

  /** `Collectors.joining(sep)`, built the way `StringJoiner` builds it: the
      first part alone, then for every further part the separator followed
      by that part. */
  function Join(parts: seq<string>, sep: string): string
    decreases |parts|
  {
    if |parts| == 0 then ""
    else if |parts| == 1 then parts[0]
    else Join(parts[..|parts| - 1], sep) + sep + parts[|parts| - 1]
  }

  /** Read from the front, the joined string is the first part, then the
      separator, then the join of the remaining parts. */
  lemma {:induction false} JoinCons(p: string, rest: seq<string>, sep: string)
    requires rest != []
    ensures Join([p] + rest, sep) == p + sep + Join(rest, sep)
    decreases |rest|
  {
    var all := [p] + rest;
    var n := |rest| - 1;
    assert all[..|all| - 1] == [p] + rest[..n];
    assert all[|all| - 1] == rest[n];
    if n > 0 {
      JoinCons(p, rest[..n], sep);
    } else {
      assert all[..|all| - 1] == [p];
    }
  }

  /** The joined string holds every character of every part plus one
      separator between each two consecutive parts. */
  lemma {:induction false} JoinLength(parts: seq<string>, sep: string)
    requires parts != []
    ensures |Join(parts, sep)| == TotalLength(parts) + (|parts| - 1) * |sep|
    decreases |parts|
  {
    if |parts| > 1 {
      JoinLength(parts[1..], sep);
      JoinCons(parts[0], parts[1..], sep);
      assert [parts[0]] + parts[1..] == parts;
    }
  }

  /** The joined string is empty for no parts, the part itself for one, and
      otherwise the first part, the separator and the join of the others;
      its length counts every part and one separator between each two. */
  lemma {:induction false} JoinShape(parts: seq<string>, sep: string)
    ensures parts == [] ==> Join(parts, sep) == ""
    ensures |parts| == 1 ==> Join(parts, sep) == parts[0]
    ensures |parts| >= 2 ==> Join(parts, sep) == parts[0] + sep + Join(parts[1..], sep)
    ensures parts != [] ==> |Join(parts, sep)| == TotalLength(parts) + (|parts| - 1) * |sep|
  {
    if |parts| >= 2 {
      JoinCons(parts[0], parts[1..], sep);
      assert [parts[0]] + parts[1..] == parts;
    }
    if parts != [] {
      JoinLength(parts, sep);
    }
  }
}
