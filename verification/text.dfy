/** The two Python string operations the pipelines rely on: `sep.join(parts)` and `s.split(sep)`. */
module Text {

  /** Python's `sep.join(parts)`. */
  function Join(parts: seq<string>, sep: string): (r: string)
    ensures parts == [] ==> r == ""
    ensures parts != [] ==> parts[0] <= r
    ensures |parts| > 1 ==> OccursAt(r, sep, |parts[0]|)
  {
    if parts == [] then ""
    else if |parts| == 1 then parts[0]
    else parts[0] + sep + Join(parts[1..], sep)
  }

  /** `sep` occurs in `s` starting at index `j`. */
  predicate OccursAt(s: string, sep: string, j: nat)
  {
    j + |sep| <= |s| && s[j..j + |sep|] == sep
  }

  /** Index of the leftmost occurrence of `sep` in `s` at or after `from`, or |s| when there is none. */
  function FindSepFrom(s: string, sep: string, from: nat): (i: nat)
    requires sep != [] && from <= |s|
    ensures from <= i <= |s|
    ensures i < |s| ==> OccursAt(s, sep, i)
    ensures forall j :: from <= j < i ==> !OccursAt(s, sep, j)
    decreases |s| - from
  {
    if from + |sep| > |s| then |s|
    else if s[from..from + |sep|] == sep then from
    else FindSepFrom(s, sep, from + 1)
  }

  /** Index of the leftmost occurrence of `sep` in `s`, or |s| when `sep` does not occur. */
  function FindSep(s: string, sep: string): (i: nat)
    requires sep != []
    ensures i <= |s|
    ensures i < |s| ==> OccursAt(s, sep, i)
    ensures forall j :: 0 <= j < i ==> !OccursAt(s, sep, j)
  {
    FindSepFrom(s, sep, 0)
  }

  /** The leftmost occurrence is pinned down by its three properties; in particular
      a prefix free of the separator's first character is passed over. */
  lemma FindSepIs(s: string, sep: string, i: nat)
    requires sep != [] && i <= |s|
    requires i < |s| ==> OccursAt(s, sep, i)
    requires forall j :: 0 <= j < i ==> s[j] != sep[0]
    ensures FindSep(s, sep) == i
  {
    forall j | 0 <= j < i ensures !OccursAt(s, sep, j) {
      assert j + |sep| <= |s| ==> s[j..j + |sep|][0] == s[j];
    }
  }

  /** Python's `s.split(sep)` for a non-empty separator: the pieces between
      the leftmost non-overlapping occurrences of `sep`; never empty. */
  function Split(s: string, sep: string): (parts: seq<string>)
    requires sep != []
    ensures |parts| >= 1
    ensures parts[0] == s[..FindSep(s, sep)]
    decreases |s|
  {
    var i := FindSep(s, sep);
    if i == |s| then [s] else [s[..i]] + Split(s[i + |sep|..], sep)
  }

  /** A string is the text before an occurrence of the separator, the separator, and the rest. */
  lemma AroundOccurrence(s: string, sep: string, i: nat)
    requires OccursAt(s, sep, i)
    ensures s == s[..i] + sep + s[i + |sep|..]
  {
    var j := i + |sep|;
    assert s[i..j] == sep;
    assert s[..i] + s[i..j] == s[..j];
    assert s[..j] + s[j..] == s;
  }

  /** One step of a split: the piece before the first separator, then the split of the rest. */
  lemma SplitStep(s: string, sep: string)
    requires sep != [] && FindSep(s, sep) < |s|
    ensures var i := FindSep(s, sep);
      && Split(s, sep) == [s[..i]] + Split(s[i + |sep|..], sep)
      && s == s[..i] + sep + s[i + |sep|..]
  {
    AroundOccurrence(s, sep, FindSep(s, sep));
  }

  /** Joining a first part to a non-empty rest puts the separator between them. */
  lemma JoinCons(first: string, rest: seq<string>, sep: string)
    requires rest != []
    ensures Join([first] + rest, sep) == first + sep + Join(rest, sep)
  {
    assert ([first] + rest)[1..] == rest;
  }

  /** Joining the pieces of a split with the same separator gives the string back. */
  lemma {:induction false} JoinSplit(s: string, sep: string)
    requires sep != []
    ensures Join(Split(s, sep), sep) == s
    decreases |s|
  {
    var i := FindSep(s, sep);
    if i < |s| {
      var rest := s[i + |sep|..];
      SplitStep(s, sep);
      JoinSplit(rest, sep);
      JoinCons(s[..i], Split(rest, sep), sep);
    }
  }

  /** Splitting `p + sep + rest`, where `p` lacks the separator's first character, cuts right after `p`. */
  lemma SplitAfterFreePrefix(p: string, sep: string, rest: string)
    requires sep != [] && sep[0] !in p
    ensures Split(p + sep + rest, sep) == [p] + Split(rest, sep)
  {
    var s := p + sep + rest;
    assert s[..|p|] == p;
    assert s[|p|..|p| + |sep|] == sep;
    assert s[|p| + |sep|..] == rest;
    FindSepIs(s, sep, |p|);
  }

  /** Splitting a join gives the parts back, provided no part contains the
      separator's first character. */
  lemma {:induction false} SplitJoin(parts: seq<string>, sep: string)
    requires sep != [] && parts != []
    requires forall k :: 0 <= k < |parts| ==> sep[0] !in parts[k]
    ensures Split(Join(parts, sep), sep) == parts
    decreases |parts|
  {
    var p := parts[0];
    if |parts| == 1 {
      FindSepIs(p, sep, |p|);
    } else {
      var tail := parts[1..];
      assert parts == [p] + tail;
      JoinCons(p, tail, sep);
      SplitAfterFreePrefix(p, sep, Join(tail, sep));
      SplitJoin(tail, sep);
    }
  }
}
