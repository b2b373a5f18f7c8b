/** The two string operations the views lean on: Python's `str.strip()` (used on
    the searched username) and the case-insensitive substring test behind the
    listing's `name__icontains` lookup. */
module Text {

  /** The characters Python's `str.strip()` removes when called without arguments. */
  predicate IsSpace(c: char) {
    var n := c as int;
    (9 <= n <= 13) || (28 <= n <= 32) || n == 0x85 || n == 0xA0 || n == 0x1680 ||
    (0x2000 <= n <= 0x200A) || n == 0x2028 || n == 0x2029 || n == 0x202F ||
    n == 0x205F || n == 0x3000
  }

  /** Drops leading whitespace: the result is a suffix of `s`, everything dropped
      is whitespace, and the result does not start with whitespace. */
  function TrimStart(s: string): (r: string)
    ensures |r| <= |s| && r == s[|s| - |r|..]
    ensures forall i :: 0 <= i < |s| - |r| ==> IsSpace(s[i])
    ensures r == [] || !IsSpace(r[0])
  {
    if s != [] && IsSpace(s[0]) then TrimStart(s[1..]) else s
  }

  /** Drops trailing whitespace: the result is a prefix of `s`, everything dropped
      is whitespace, and the result does not end with whitespace. */
  function TrimEnd(s: string): (r: string)
    ensures |r| <= |s| && r == s[..|r|]
    ensures forall i :: |r| <= i < |s| ==> IsSpace(s[i])
    ensures r == [] || !IsSpace(r[|r| - 1])
  {
    if s != [] && IsSpace(s[|s| - 1]) then TrimEnd(s[..|s| - 1]) else s
  }

  /** `r` is the piece of `s` starting at `i`, and all of `s` before and after
      that piece is whitespace. */
  ghost predicate StrippedAt(s: string, r: string, i: int) {
    0 <= i && i + |r| <= |s| && s[i..i + |r|] == r &&
    (forall k :: 0 <= k < i ==> IsSpace(s[k])) &&
    (forall k :: i + |r| <= k < |s| ==> IsSpace(s[k]))
  }

  /** `str.strip()`: a contiguous piece of `s` with neither leading nor trailing
      whitespace, whose removed ends are all whitespace. */
  function Strip(s: string): (r: string)
    ensures |r| <= |s|
    ensures exists i :: StrippedAt(s, r, i)
    ensures r == [] || (!IsSpace(r[0]) && !IsSpace(r[|r| - 1]))
    ensures (forall c :: c in s ==> IsSpace(c)) <==> r == []
  {
    var t := TrimStart(s);
    var r := TrimEnd(t);
    assert r != [] ==> r[0] == t[0];
    assert r == [] ==> forall c :: c in s ==> IsSpace(c) by {
      if r == [] {
        forall c | c in s ensures IsSpace(c) {
          assert t == [];
        }
      }
    }
    var i := |s| - |t|;
    assert s[i..i + |r|] == t[..|r|];
    assert StrippedAt(s, r, i);
    r
  }

  /** Stripping twice is stripping once. */
  lemma StripIdempotent(s: string)
    ensures Strip(Strip(s)) == Strip(s)
  {
  }

  /** A string with no whitespace at either end is its own strip. */
  lemma StripKeepsTrimmed(s: string)
    requires s == [] || (!IsSpace(s[0]) && !IsSpace(s[|s| - 1]))
    ensures Strip(s) == s
  {
  }

  /** Whitespace typed around a name is stripped off, and nothing else. */
  lemma StripPadded(pre: string, name: string, post: string)
    requires forall c :: c in pre ==> IsSpace(c)
    requires forall c :: c in post ==> IsSpace(c)
    requires name == [] || (!IsSpace(name[0]) && !IsSpace(name[|name| - 1]))
    ensures Strip(pre + name + post) == name
  {
    if name == [] {
      assert pre + name + post == pre + post;
    } else {
      assert pre + name + post == pre + (name + post);
      TrimStartSpaces(pre, name + post);
      TrimEndSpaces(name, post);
    }
  }

  lemma {:induction false} TrimStartSpaces(pre: string, t: string)
    requires forall c :: c in pre ==> IsSpace(c)
    requires t == [] || !IsSpace(t[0])
    ensures TrimStart(pre + t) == t
  {
    if pre != [] {
      assert (pre + t)[0] == pre[0] && (pre + t)[1..] == pre[1..] + t;
      TrimStartSpaces(pre[1..], t);
    }
  }

  lemma {:induction false} TrimEndSpaces(t: string, post: string)
    requires forall c :: c in post ==> IsSpace(c)
    requires t == [] || !IsSpace(t[|t| - 1])
    ensures TrimEnd(t + post) == t
  {
    if post != [] {
      var p := post[..|post| - 1];
      assert post[|post| - 1] in post;
      assert (t + post)[..|t + post| - 1] == t + p;
      TrimEndSpaces(t, p);
    } else {
      assert t + post == t;
    }
  }

  /** ASCII case folding, the folding SQL's case-insensitive LIKE applies. */
  function Lower(c: char): (d: char)
    ensures 'A' <= c <= 'Z' ==> 'a' <= d <= 'z' && d as int == c as int + 32
    ensures !('A' <= c <= 'Z') ==> d == c
  {
    if 'A' <= c <= 'Z' then (c as int + 32) as char else c
  }

  function Fold(s: string): (r: string)
    ensures |r| == |s|
    ensures forall i :: 0 <= i < |s| ==> r[i] == Lower(s[i])
  {
    seq(|s|, i requires 0 <= i < |s| => Lower(s[i]))
  }

  /** `q` occurs in `s` starting at position `i`. */
  ghost predicate OccursAt(s: string, q: string, i: int) {
    0 <= i && i + |q| <= |s| && s[i..i + |q|] == q
  }

  /** Substring test, scanning `s` from the left. */
  function Contains(s: string, q: string): bool
    decreases |s|
  {
    if |q| > |s| then false
    else if s[..|q|] == q then true
    else Contains(s[1..], q)
  }

  /** The scan finds `q` exactly when `q` occurs somewhere in `s`. */
  lemma {:induction false} ContainsIff(s: string, q: string)
    ensures Contains(s, q) <==> exists i :: OccursAt(s, q, i)
    decreases |s|
  {
    if |q| > |s| {
    } else if s[..|q|] == q {
      assert OccursAt(s, q, 0);
    } else {
      ContainsIff(s[1..], q);
      if Contains(s[1..], q) {
        var i :| OccursAt(s[1..], q, i);
        assert s[1..][i..i + |q|] == s[i + 1..i + 1 + |q|];
        assert OccursAt(s, q, i + 1);
      }
      if i :| OccursAt(s, q, i) {
        assert i != 0;
        assert s[1..][i - 1..i - 1 + |q|] == s[i..i + |q|];
        assert OccursAt(s[1..], q, i - 1);
      }
    }
  }

  /** `name__icontains`: `q` occurs in `s` once both are case-folded. */
  function IContains(s: string, q: string): (b: bool)
    ensures b <==> exists i :: OccursAt(Fold(s), Fold(q), i)
  {
    ContainsIff(Fold(s), Fold(q));
    Contains(Fold(s), Fold(q))
  }

  /** A name contains every piece of itself, and the empty query occurs in every name. */
  lemma IContainsInfix(s: string, i: nat, j: nat)
    requires i <= j <= |s|
    ensures IContains(s, s[i..j])
  {
    assert Fold(s)[i..j] == Fold(s[i..j]);
    assert OccursAt(Fold(s), Fold(s[i..j]), i);
  }
}
