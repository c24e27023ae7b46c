/**
 The two pieces of Rust's `str` library the pair parser relies on: `trim`,
 which drops leading and trailing whitespace, and `find`, which gives the
 position of the first occurrence of a character. Positions are character
 indices; the program's separator is ASCII, so its byte offset and its
 character index pick out the same split.
 */
module Text {
  import opened Wrappers

  /** The Unicode White_Space property, the set `char::is_whitespace` accepts. */
  predicate IsWhitespace(ch: char) {
    || ('\t' <= ch <= '\r')
    || ch == ' '
    || ch == '\U{85}'
    || ch == '\U{A0}'
    || ch == '\U{1680}'
    || ('\U{2000}' <= ch <= '\U{200A}')
    || ch == '\U{2028}'
    || ch == '\U{2029}'
    || ch == '\U{202F}'
    || ch == '\U{205F}'
    || ch == '\U{3000}'
  }

  /** Every character of `s` is whitespace. */
  predicate AllWhitespace(s: string) {
    forall i | 0 <= i < |s| :: IsWhitespace(s[i])
  }

  /** Neither the first nor the last character is whitespace. */
  predicate Trimmed(s: string) {
    |s| == 0 || (!IsWhitespace(s[0]) && !IsWhitespace(s[|s| - 1]))
  }

  /** `str::trim_start`: the suffix left after dropping the whitespace in front. */
  function TrimStart(s: string): (r: string)
    ensures |r| <= |s| && r == s[|s| - |r|..]
    ensures forall i | 0 <= i < |s| - |r| :: IsWhitespace(s[i])
    ensures |r| == 0 || !IsWhitespace(r[0])
  {
    if |s| > 0 && IsWhitespace(s[0]) then TrimStart(s[1..]) else s
  }

  /** `str::trim_end`: the prefix left after dropping the whitespace behind. */
  function TrimEnd(s: string): (r: string)
    ensures |r| <= |s| && r == s[..|r|]
    ensures forall i | |r| <= i < |s| :: IsWhitespace(s[i])
    ensures |r| == 0 || !IsWhitespace(r[|r| - 1])
  {
    if |s| > 0 && IsWhitespace(s[|s| - 1]) then TrimEnd(s[..|s| - 1]) else s
  }

  /** `str::trim`: a slice of `s` with only whitespace cut away on either side. */
  function Trim(s: string): (r: string)
    ensures Trimmed(r)
    ensures exists i, j | 0 <= i <= j <= |s| ::
              && r == s[i..j]
              && (forall k | 0 <= k < i :: IsWhitespace(s[k]))
              && (forall k | j <= k < |s| :: IsWhitespace(s[k]))
  {
    var t := TrimStart(s);
    var r := TrimEnd(t);
    var i := |s| - |t|;
    assert r == s[i..i + |r|];
    assert s[i + |r|..] == t[|r|..];
    assert Trimmed(r) by {
      if |r| > 0 {
        assert r[0] == t[0];
      }
    }
    r
  }

  /** Trimming gives back exactly the text between whitespace padding. */
  lemma {:induction false} TrimPadded(p: string, a: string, q: string)
    requires AllWhitespace(p) && AllWhitespace(q)
    requires Trimmed(a)
    ensures Trim(p + a + q) == a
  {
    if |a| == 0 {
      assert p + a + q == p + q;
      TrimStartPadded(p + q, []);
      assert p + q + [] == p + q;
    } else {
      assert p + a + q == p + (a + q);
      TrimStartPadded(p, a + q);
      TrimEndPadded(a, q);
    }
  }

  /** Text without surrounding whitespace is left as it is. */
  lemma TrimTrimmed(a: string)
    requires Trimmed(a)
    ensures Trim(a) == a
  {
  }

  lemma {:induction false} TrimStartPadded(p: string, t: string)
    requires AllWhitespace(p)
    requires |t| == 0 || !IsWhitespace(t[0])
    ensures TrimStart(p + t) == t
  {
    if |p| > 0 {
      assert (p + t)[1..] == p[1..] + t;
      TrimStartPadded(p[1..], t);
    } else {
      assert p + t == t;
    }
  }

  lemma {:induction false} TrimEndPadded(t: string, q: string)
    requires AllWhitespace(q)
    requires |t| == 0 || !IsWhitespace(t[|t| - 1])
    ensures TrimEnd(t + q) == t
  {
    if |q| > 0 {
      var q' := q[..|q| - 1];
      assert (t + q)[..|t + q| - 1] == t + q';
      TrimEndPadded(t, q');
    } else {
      assert t + q == t;
    }
  }

  /** Position `k` holds `c`, and no earlier position does. */
  predicate FirstAt(s: string, c: char, k: int) {
    0 <= k < |s| && s[k] == c && forall j | 0 <= j < k :: s[j] != c
  }

  /** `str::find` for a character: the index of its first occurrence. */
  function Find(s: string, c: char): (r: Option<nat>)
    ensures r.None? <==> c !in s
    ensures r.Some? ==> FirstAt(s, c, r.value)
  {
    if |s| == 0 then None
    else if s[0] == c then Some(0)
    else
      match Find(s[1..], c)
      case None => None
      case Some(k) => Some(k + 1)
  }

  /** Whatever follows it, the first occurrence of `c` is found right after `left`. */
  lemma FindFirst(left: string, c: char, right: string)
    requires c !in left
    ensures Find(left + [c] + right, c) == Some(|left|)
  {
    var s := left + [c] + right;
    assert s[|left|] == c;
  }
}
