/**
 * The String.prototype methods the program relies on: `trim`, `split` with a
 * string separator, `includes`, and `replace` with a global literal pattern.
 * Strings are sequences of Unicode scalar values.
 */
module JsString {

  /**
   * The characters `trim` removes: ECMAScript's WhiteSpace (tab, vertical
   * tab, form feed, space, no-break space, the byte order mark and the
   * space separators of the Unicode category Zs) and LineTerminator (line
   * feed, carriage return, line and paragraph separator).
   */
  predicate IsWhite(c: char) {
    c == '\t' || c == '\n' || c == '\U{000B}' || c == '\U{000C}' || c == '\r' ||
    c == ' ' || c == '\U{00A0}' || c == '\U{1680}' || ('\U{2000}' <= c <= '\U{200A}') ||
    c == '\U{2028}' || c == '\U{2029}' || c == '\U{202F}' || c == '\U{205F}' ||
    c == '\U{3000}' || c == '\U{FEFF}'
  }

  /** Neither end of `s` is white space (so `trim` leaves it as it is). */
  predicate IsTrimmed(s: string) {
    s == [] || (!IsWhite(s[0]) && !IsWhite(s[|s| - 1]))
  }

  predicate NonEmpty(s: string) {
    s != []
  }

  predicate IsPrefix(p: string, s: string) {
    |p| <= |s| && s[..|p|] == p
  }

  /** `s` with its leading white space removed. */
  function TrimStart(s: string): (r: string)
    ensures |r| <= |s| && r == s[|s| - |r|..]
    ensures forall k :: 0 <= k < |s| - |r| ==> IsWhite(s[k])
    ensures r == [] || !IsWhite(r[0])
    decreases |s|
  {
    if s != [] && IsWhite(s[0]) then TrimStart(s[1..]) else s
  }

  /** `s` with its trailing white space removed. */
  function TrimEnd(s: string): (r: string)
    ensures |r| <= |s| && r == s[..|r|]
    ensures forall k :: |r| <= k < |s| ==> IsWhite(s[k])
    ensures r == [] || !IsWhite(r[|r| - 1])
    decreases |s|
  {
    if s != [] && IsWhite(s[|s| - 1]) then TrimEnd(s[..|s| - 1]) else s
  }

  /** `r` is the infix of `s` at index `i`, and everything of `s` before and after it is white space. */
  predicate WhiteAround(s: string, r: string, i: int) {
    && 0 <= i && i + |r| <= |s| && r == s[i..i + |r|]
    && (forall k :: 0 <= k < i ==> IsWhite(s[k]))
    && (forall k :: i + |r| <= k < |s| ==> IsWhite(s[k]))
  }

  /**
   * `s.trim()`: the infix of `s` left once its leading and trailing white
   * space is cut off; it starts and ends with a non-white character
   * (`TrimInfix` shows that only white space is cut off).
   */
  function Trim(s: string): (r: string)
    ensures IsTrimmed(r)
    ensures |r| <= |s|
  {
    TrimEnd(TrimStart(s))
  }

  /** What `Trim` cuts off is white space on both sides of an infix. */
  lemma TrimInfix(s: string)
    ensures WhiteAround(s, Trim(s), |s| - |TrimStart(s)|)
  {
    CutsLeaveInfix(s, TrimStart(s), Trim(s));
  }

  /** Cutting white space off the front, then off the back, leaves an infix with white space around it. */
  lemma CutsLeaveInfix(s: string, t: string, r: string)
    requires |t| <= |s| && t == s[|s| - |t|..]
    requires forall k :: 0 <= k < |s| - |t| ==> IsWhite(s[k])
    requires |r| <= |t| && r == t[..|r|]
    requires forall k :: |r| <= k < |t| ==> IsWhite(t[k])
    ensures WhiteAround(s, r, |s| - |t|)
  {
    var i := |s| - |t|;
    assert r == s[i..i + |r|];
    forall k | i + |r| <= k < |s|
      ensures IsWhite(s[k])
    {
      assert s[k] == t[k - i];
    }
  }

  /** Trimming changes nothing on a string that is already trimmed. */
  lemma TrimOfTrimmed(s: string)
    requires IsTrimmed(s)
    ensures Trim(s) == s
  {
    assert TrimStart(s) == s;
  }

  /**
   * `s.split(sep)` for a non-empty separator: the text between the
   * leftmost non-overlapping occurrences of `sep`. Always at least one part.
   */
  function Split(s: string, sep: string): (parts: seq<string>)
    requires sep != []
    ensures |parts| >= 1
    decreases |s|
  {
    if |s| < |sep| then [s]
    else if s[..|sep|] == sep then [[]] + Split(s[|sep|..], sep)
    else
      var rest := Split(s[1..], sep);
      [[s[0]] + rest[0]] + rest[1..]
  }

  /** `parts.join(sep)`. */
  function Join(parts: seq<string>, sep: string): string
    requires |parts| >= 1
  {
    if |parts| == 1 then parts[0] else parts[0] + sep + Join(parts[1..], sep)
  }

  /** Joining a first part in front of at least one more. */
  lemma JoinCons(a: string, rest: seq<string>, sep: string)
    requires |rest| >= 1
    ensures Join([a] + rest, sep) == a + sep + Join(rest, sep)
  {
    assert ([a] + rest)[1..] == rest;
  }

  /** Gluing a character to the front of the first part glues it to the front of the joined text. */
  lemma JoinGlue(c: char, rest: seq<string>, sep: string)
    requires |rest| >= 1
    ensures Join([[c] + rest[0]] + rest[1..], sep) == [c] + Join(rest, sep)
  {
    if |rest| > 1 {
      JoinCons([c] + rest[0], rest[1..], sep);
      JoinCons(rest[0], rest[1..], sep);
      assert [rest[0]] + rest[1..] == rest;
    }
  }

  /** Splitting loses nothing: joining the parts with the separator gives the text back. */
  lemma {:induction false} JoinSplit(s: string, sep: string)
    requires sep != []
    ensures Join(Split(s, sep), sep) == s
    decreases |s|
  {
    if |s| < |sep| {
    } else if s[..|sep|] == sep {
      var tail := s[|sep|..];
      assert Split(s, sep) == [[]] + Split(tail, sep);
      JoinCons([], Split(tail, sep), sep);
      JoinSplit(tail, sep);
      assert s == sep + tail;
    } else {
      var tail := s[1..];
      var rest := Split(tail, sep);
      assert Split(s, sep) == [[s[0]] + rest[0]] + rest[1..];
      JoinGlue(s[0], rest, sep);
      JoinSplit(tail, sep);
      assert s == [s[0]] + tail;
    }
  }

  /** `sep` does not occur anywhere in `s` (not even running past its end into nothing). */
  predicate Free(s: string, sep: string) {
    forall i :: 0 <= i < |s| ==> !IsPrefix(sep, s[i..])
  }

  /** A text in which the separator does not occur is one part. */
  lemma {:induction false} SplitFree(s: string, sep: string)
    requires sep != [] && Free(s, sep)
    ensures Split(s, sep) == [s]
    decreases |s|
  {
    if |s| >= |sep| {
      assert s[0..] == s;
      assert !IsPrefix(sep, s[0..]);
      assert forall i :: 0 <= i < |s| - 1 ==> s[1..][i..] == s[i + 1..];
      SplitFree(s[1..], sep);
      assert [s[0]] + s[1..] == s;
    }
  }

  /**
   * When the first occurrence of `sep` in `a + sep + rest` is the one right
   * after `a`, the first part is `a` and the others are the parts of `rest`.
   */
  lemma {:induction false} SplitFirst(a: string, sep: string, rest: string)
    requires sep != []
    requires forall i :: 0 <= i < |a| ==> !IsPrefix(sep, (a + sep + rest)[i..])
    ensures Split(a + sep + rest, sep) == [a] + Split(rest, sep)
    decreases |a|
  {
    var s := a + sep + rest;
    if a == [] {
      assert s == sep + rest;
      assert s[..|sep|] == sep && s[|sep|..] == rest;
    } else {
      assert s[0..] == s;
      assert !IsPrefix(sep, s);
      assert s[1..] == a[1..] + sep + rest;
      forall i | 0 <= i < |a| - 1
        ensures !IsPrefix(sep, (a[1..] + sep + rest)[i..])
      {
        assert (a[1..] + sep + rest)[i..] == s[i + 1..];
      }
      SplitFirst(a[1..], sep, rest);
      assert [s[0]] + a[1..] == a;
    }
  }

  /** `s.includes(p)`. */
  predicate Contains(s: string, p: string)
    decreases |s|
  {
    IsPrefix(p, s) || (s != [] && Contains(s[1..], p))
  }

  /** `p` occurs in `s` starting at index `i`. */
  predicate OccursAt(s: string, p: string, i: int) {
    0 <= i && i + |p| <= |s| && s[i..i + |p|] == p
  }

  /** `includes` holds exactly when the pattern occurs at some index. */
  lemma {:induction false} ContainsOccurs(s: string, p: string)
    ensures Contains(s, p) <==> exists i :: OccursAt(s, p, i)
    decreases |s|
  {
    if IsPrefix(p, s) {
      assert OccursAt(s, p, 0);
    } else if s == [] {
      assert forall i :: !OccursAt(s, p, i);
    } else {
      ContainsOccurs(s[1..], p);
      if Contains(s[1..], p) {
        var i :| OccursAt(s[1..], p, i);
        assert s[1..][i..i + |p|] == s[i + 1..i + 1 + |p|];
        assert OccursAt(s, p, i + 1);
      } else {
        forall i | OccursAt(s, p, i)
          ensures false
        {
          assert i != 0;
          assert s[1..][i - 1..i - 1 + |p|] == s[i..i + |p|];
          assert OccursAt(s[1..], p, i - 1);
        }
      }
    }
  }

  /**
   * `s.replace(/pat/g, rep)` for a literal, non-empty pattern: each
   * leftmost non-overlapping occurrence of `pat` becomes `rep`.
   */
  function ReplaceAll(s: string, pat: string, rep: string): (r: string)
    requires pat != []
    decreases |s|
  {
    if s == [] then []
    else if IsPrefix(pat, s) then rep + ReplaceAll(s[|pat|..], pat, rep)
    else [s[0]] + ReplaceAll(s[1..], pat, rep)
  }
}
