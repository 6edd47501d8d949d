/** The two string operations the quote pipeline relies on: Python's
    `str.split` with a one-character separator, and Python's ordering of
    `str` values (the order pandas sorts and groups string columns by). */
module Text {

  /** `s.split(sep)`: the pieces of `s` between separators, in order.
      Two adjacent separators give an empty piece, so there is always
      one more piece than there are separators. */
  function Split(s: string, sep: char): (parts: seq<string>)
    ensures |parts| == multiset(s)[sep] + 1
    ensures forall i :: 0 <= i < |parts| ==> sep !in parts[i]
    decreases |s|
  {
    if s == [] then [""]
    else
      assert s == [s[0]] + s[1..];
      var rest := Split(s[1..], sep);
      if s[0] == sep then [""] + rest
      else [[s[0]] + rest[0]] + rest[1..]
  }

  /** `sep.join(parts)`. */
  function Join(parts: seq<string>, sep: char): string
    decreases |parts|
  {
    if |parts| == 0 then ""
    else if |parts| == 1 then parts[0]
    else parts[0] + [sep] + Join(parts[1..], sep)
  }

  /** Joining the pieces back with the separator gives the original string. */
  lemma {:induction false} JoinSplit(s: string, sep: char)
    ensures Join(Split(s, sep), sep) == s
    decreases |s|
  {
    if s != [] {
      JoinSplit(s[1..], sep);
      var rest := Split(s[1..], sep);
      assert s == [s[0]] + s[1..];
      if s[0] == sep {
        assert Split(s, sep) == [""] + rest;
        JoinCons("", rest, sep);
      } else {
        assert Split(s, sep) == [[s[0]] + rest[0]] + rest[1..];
        JoinPrepend(s[0], rest, sep);
      }
    }
  }

  lemma JoinCons(p: string, parts: seq<string>, sep: char)
    requires |parts| >= 1
    ensures Join([p] + parts, sep) == p + [sep] + Join(parts, sep)
  {
    assert ([p] + parts)[1..] == parts;
  }

  /** Prepending a character to the first piece prepends it to the join. */
  lemma JoinPrepend(c: char, parts: seq<string>, sep: char)
    requires |parts| >= 1
    ensures Join([[c] + parts[0]] + parts[1..], sep) == [c] + Join(parts, sep)
  {
    var q := [[c] + parts[0]] + parts[1..];
    if |parts| > 1 {
      assert q[1..] == parts[1..];
      assert Join(q, sep) == ([c] + parts[0]) + [sep] + Join(parts[1..], sep);
    }
  }

  /** `s.split(sep)[-1]`: the last piece. */
  function LastToken(s: string, sep: char): string
  {
    var parts := Split(s, sep);
    parts[|parts| - 1]
  }

  /** The last piece is the suffix of `s` after its last separator, or the
      whole of `s` when `s` holds no separator. */
  lemma {:induction false} LastTokenIsTail(s: string, sep: char)
    ensures var t := LastToken(s, sep);
      && sep !in t
      && |t| <= |s|
      && t == s[|s| - |t|..]
      && (if sep in s then |t| < |s| && s[|s| - |t| - 1] == sep else t == s)
    decreases |s|
  {
    if s != [] {
      LastTokenIsTail(s[1..], sep);
      assert s == [s[0]] + s[1..];
      var rest := Split(s[1..], sep);
      var t' := LastToken(s[1..], sep);
      var t := LastToken(s, sep);
      if s[0] == sep {
        assert Split(s, sep) == [""] + rest;
        assert t == t';
      } else if |rest| == 1 {
        assert multiset(s[1..])[sep] == 0;
        assert sep !in s[1..];
        assert Split(s, sep) == [[s[0]] + rest[0]];
        assert t == [s[0]] + t';
      } else {
        assert multiset(s[1..])[sep] > 0;
        assert sep in s[1..];
        assert Split(s, sep)[|Split(s, sep)| - 1] == rest[|rest| - 1];
        assert t == t';
      }
    }
  }

  /** When the last separator of `s` sits `n` characters from its end,
      the last piece is those `n` characters. */
  lemma LastTokenOfLength(s: string, sep: char, n: nat)
    requires n < |s| && s[|s| - n - 1] == sep
    requires forall i :: |s| - n <= i < |s| ==> s[i] != sep
    ensures LastToken(s, sep) == s[|s| - n..]
  {
    LastTokenIsTail(s, sep);
    assert s[|s| - n - 1] in s;
  }

  /** Python's `a < b` on `str`: lexicographic by code point, a proper
      prefix coming first. */
  predicate Less(a: string, b: string)
    decreases |a|
  {
    if a == [] then b != []
    else if b == [] then false
    else if a[0] != b[0] then a[0] < b[0]
    else Less(a[1..], b[1..])
  }

  /** No string is below itself, and two strings are never below each other. */
  lemma {:induction false} LessIrreflexiveAsymmetric(a: string, b: string)
    ensures !Less(a, a)
    ensures Less(a, b) ==> !Less(b, a)
    decreases |a|
  {
    if a != [] && b != [] {
      LessIrreflexiveAsymmetric(a[1..], b[1..]);
    } else if a != [] {
      LessIrreflexiveAsymmetric(a[1..], a[1..]);
    }
  }

  lemma {:induction false} LessTransitive(a: string, b: string, c: string)
    requires Less(a, b) && Less(b, c)
    ensures Less(a, c)
    decreases |a|
  {
    if a != [] && a[0] == b[0] && b[0] == c[0] {
      LessTransitive(a[1..], b[1..], c[1..]);
    }
  }

  /** Any two different strings are ordered one way or the other. */
  lemma {:induction false} LessTotal(a: string, b: string)
    requires a != b
    ensures Less(a, b) || Less(b, a)
    decreases |a|
  {
    if a != [] && b != [] && a[0] == b[0] {
      assert a == [a[0]] + a[1..] && b == [b[0]] + b[1..];
      LessTotal(a[1..], b[1..]);
    }
  }
}
