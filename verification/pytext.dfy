/** The Python string operations the pipeline relies on: the `str.isspace()`
    character class, `str.strip()` without arguments, and `sep.join(parts)`. */
module PyText {

  /** The characters for which Python's `str.isspace()` holds; these are exactly
      the characters `str.strip()` removes when called without arguments. */
  predicate IsSpace(c: char) {
    || ('\t' <= c <= '\r')
    || ('\U{1C}' <= c <= '\U{1F}')
    || c == ' '
    || c == '\U{85}'
    || c == '\U{A0}'
    || c == '\U{1680}'
    || ('\U{2000}' <= c <= '\U{200A}')
    || c == '\U{2028}'
    || c == '\U{2029}'
    || c == '\U{202F}'
    || c == '\U{205F}'
    || c == '\U{3000}'
  }

  predicate AllSpace(s: string) {
    forall i :: 0 <= i < |s| ==> IsSpace(s[i])
  }

  /** Neither end of `s` is whitespace: the shape of every value `Strip` returns. */
  predicate IsStripped(s: string) {
    s == [] || (!IsSpace(s[0]) && !IsSpace(s[|s| - 1]))
  }

  /** `s.strip()`: `s` without its leading and trailing whitespace. */
  function Strip(s: string): (r: string)
    ensures IsStripped(r)
    ensures |r| <= |s|
    ensures r == [] <==> AllSpace(s)
    decreases |s|
  {
    if |s| > 0 && IsSpace(s[0]) then
      assert AllSpace(s) <==> AllSpace(s[1..]) by {
        assert forall i :: 0 < i < |s| ==> s[i] == s[1..][i - 1];
      }
      Strip(s[1..])
    else if |s| > 0 && IsSpace(s[|s| - 1]) then
      assert AllSpace(s) <==> AllSpace(s[..|s| - 1]);
      Strip(s[..|s| - 1])
    else
      s
  }

  /** `Strip(s)` is what remains of `s` after removing a whitespace-only prefix and a
      whitespace-only suffix. */
  lemma {:induction false} StripSplit(s: string) returns (pre: string, post: string)
    ensures s == pre + Strip(s) + post
    ensures AllSpace(pre) && AllSpace(post)
    decreases |s|
  {
    if |s| > 0 && IsSpace(s[0]) {
      var p, q := StripSplit(s[1..]);
      pre, post := [s[0]] + p, q;
      AllSpaceConcat([s[0]], p);
      StripFrontStep(s);
      Regroup(s, p, Strip(s[1..]), q);
    } else if |s| > 0 && IsSpace(s[|s| - 1]) {
      var p, q := StripSplit(s[..|s| - 1]);
      pre, post := p, q + [s[|s| - 1]];
      AllSpaceConcat(q, [s[|s| - 1]]);
      StripBackStep(s);
      RegroupBack(s, p, Strip(s[..|s| - 1]), q);
    } else {
      pre, post := [], [];
      assert s == [] + s + [];
    }
  }

  lemma StripFrontStep(s: string)
    requires |s| > 0 && IsSpace(s[0])
    ensures Strip(s) == Strip(s[1..])
  {
  }

  lemma StripBackStep(s: string)
    requires |s| > 0 && !IsSpace(s[0]) && IsSpace(s[|s| - 1])
    ensures Strip(s) == Strip(s[..|s| - 1])
  {
  }

  /** Putting the first character back in front of a split of the rest. */
  lemma Regroup(s: string, p: string, m: string, q: string)
    requires |s| > 0 && s[1..] == p + m + q
    ensures s == ([s[0]] + p) + m + q
  {
    assert s == [s[0]] + s[1..];
  }

  /** Putting the last character back after a split of the rest. */
  lemma RegroupBack(s: string, p: string, m: string, q: string)
    requires |s| > 0 && s[..|s| - 1] == p + m + q
    ensures s == p + m + (q + [s[|s| - 1]])
  {
    assert s == s[..|s| - 1] + [s[|s| - 1]];
  }

  lemma AllSpaceConcat(a: string, b: string)
    requires AllSpace(a) && AllSpace(b)
    ensures AllSpace(a + b)
  {
    var s := a + b;
    forall i | 0 <= i < |s| ensures IsSpace(s[i]) {
      if i < |a| { assert s[i] == a[i]; } else { assert s[i] == b[i - |a|]; }
    }
  }

  /** The stripped core of a string is unique: whatever stripped `m` is surrounded by
      whitespace only, `Strip` returns exactly `m`. */
  lemma {:induction false} StripUnique(pre: string, m: string, post: string)
    requires AllSpace(pre) && AllSpace(post) && IsStripped(m)
    ensures Strip(pre + m + post) == m
    decreases |pre| + |post|
  {
    var s := pre + m + post;
    if m == [] {
      assert s == pre + post;
      AllSpaceConcat(pre, post);
    } else if pre != [] {
      StripLeading(pre, m, post);
    } else if post != [] {
      StripTrailing(m, post);
    } else {
      assert s == m;
    }
  }

  lemma {:induction false} StripLeading(pre: string, m: string, post: string)
    requires AllSpace(pre) && AllSpace(post) && IsStripped(m)
    requires pre != [] && m != []
    ensures Strip(pre + m + post) == m
    decreases |pre| + |post|, 1
  {
    var s := pre + m + post;
    assert IsSpace(s[0]);
    assert s[1..] == pre[1..] + m + post;
    assert Strip(s) == Strip(s[1..]);
    StripUnique(pre[1..], m, post);
  }

  lemma {:induction false} StripTrailing(m: string, post: string)
    requires AllSpace(post) && IsStripped(m)
    requires post != [] && m != []
    ensures Strip([] + m + post) == m
    decreases |post|, 1
  {
    var s := m + post;
    assert [] + m + post == s;
    assert !IsSpace(s[0]) && IsSpace(s[|s| - 1]);
    assert s[..|s| - 1] == [] + m + post[..|post| - 1];
    assert Strip(s) == Strip(s[..|s| - 1]);
    StripUnique([], m, post[..|post| - 1]);
  }

  /** Stripping an already stripped string changes nothing, so `strip` is idempotent. */
  lemma StripIdempotent(s: string)
    ensures IsStripped(s) ==> Strip(s) == s
    ensures Strip(Strip(s)) == Strip(s)
  {
    if IsStripped(s) {
      StripUnique([], s, []);
      assert [] + s + [] == s;
    }
    StripUnique([], Strip(s), []);
    assert [] + Strip(s) + [] == Strip(s);
  }

  /** `sep.join(parts)`. */
  function JoinWith(sep: string, parts: seq<string>): string
  {
    if |parts| == 0 then ""
    else if |parts| == 1 then parts[0]
    else parts[0] + sep + JoinWith(sep, parts[1..])
  }

  lemma JoinTwo(sep: string, a: string, b: string)
    ensures JoinWith(sep, [a, b]) == a + sep + b
  {
    assert [a, b][1..] == [b];
  }

  /** Every part non-empty and stripped. */
  predicate AllNonEmptyStripped(parts: seq<string>) {
    forall i :: 0 <= i < |parts| ==> parts[i] != [] && IsStripped(parts[i])
  }

  /** Joining non-empty stripped parts gives a stripped string that is empty exactly
      when there are no parts: its first and last characters are those of the first
      and last parts, whatever the separator. */
  lemma {:induction false} JoinOfStripped(sep: string, parts: seq<string>)
    requires AllNonEmptyStripped(parts)
    ensures IsStripped(JoinWith(sep, parts))
    ensures JoinWith(sep, parts) == [] <==> parts == []
    ensures parts != [] ==> JoinWith(sep, parts)[0] == parts[0][0]
    decreases |parts|
  {
    if |parts| > 1 {
      var rest := JoinWith(sep, parts[1..]);
      JoinOfStripped(sep, parts[1..]);
      var j := parts[0] + sep + rest;
      assert j[0] == parts[0][0];
      assert j[|j| - 1] == rest[|rest| - 1];
    }
  }
}
