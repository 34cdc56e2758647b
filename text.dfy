/** The pieces of Python's string library the transcoders rely on, restricted
    to byte strings: ASCII upper-casing, `str.replace`, `str.split`, `join`,
    slicing off a tail, and the lemmas about them that the codec proofs use. */
module Text {

  /** `str.upper` on one byte: only the ASCII letters change. */
  function Upper(c: char): char
  {
    if 'a' <= c <= 'z' then (c as int - 32) as char else c
  }

  function UpperString(s: string): string
  {
    seq(|s|, i requires 0 <= i < |s| => Upper(s[i]))
  }

  /** `s.replace(pat, rep)`: scan left to right and replace every
      non-overlapping occurrence of `pat`. */
  function ReplaceAll<T(==)>(s: seq<T>, pat: seq<T>, rep: seq<T>): seq<T>
    requires |pat| > 0
    decreases |s|
  {
    if |s| < |pat| then s
    else if s[..|pat|] == pat then rep + ReplaceAll(s[|pat|..], pat, rep)
    else [s[0]] + ReplaceAll(s[1..], pat, rep)
  }

  /** `s.split(sep)` for a one-character separator: the pieces between
      separators, always at least one. */
  function Split<T(==)>(s: seq<T>, sep: T): (parts: seq<seq<T>>)
    ensures |parts| >= 1
  {
    if s == [] then [[]]
    else
      var rest := Split(s[1..], sep);
      if s[0] == sep then [[]] + rest
      else [[s[0]] + rest[0]] + rest[1..]
  }

  /** The whitespace of `str.split()` on a byte string: space, tab, line feed,
      vertical tab, form feed and carriage return. */
  predicate IsSpace(c: char)
  {
    c == ' ' || '\t' <= c <= '\r'
  }

  predicate NoSpace(s: string)
  {
    forall i | 0 <= i < |s| :: !IsSpace(s[i])
  }

  /** The longest prefix of `s` without whitespace. */
  function Token(s: string): (t: string)
    ensures |t| <= |s|
  {
    if s == [] || IsSpace(s[0]) then [] else [s[0]] + Token(s[1..])
  }

  /** `s.split()`: the maximal runs of non-whitespace characters. */
  function Words(s: string): seq<string>
    decreases |s|
  {
    if s == [] then []
    else if IsSpace(s[0]) then Words(s[1..])
    else
      var t := Token(s);
      [t] + Words(s[|t|..])
  }

  /** `sep.join(parts)`. */
  function Join<T>(parts: seq<seq<T>>, sep: seq<T>): seq<T>
  {
    if parts == [] then []
    else if |parts| == 1 then parts[0]
    else parts[0] + sep + Join(parts[1..], sep)
  }

  /** `''.join(parts)`. */
  function Flatten<T>(parts: seq<seq<T>>): seq<T>
  {
    if parts == [] then [] else parts[0] + Flatten(parts[1..])
  }

  /** `s[:-n]` as the codecs use it, behind an `if n:` guard: nothing is
      dropped when `n` is 0, everything when `n` exceeds the length. */
  function DropLast<T>(s: seq<T>, n: nat): seq<T>
  {
    if n <= |s| then s[..|s| - n] else []
  }

  /** `x * n` for a one-character string `x`. */
  function Repeat<T>(x: T, n: nat): (r: seq<T>)
    ensures |r| == n
    ensures forall i | 0 <= i < n :: r[i] == x
  {
    if n == 0 then [] else [x] + Repeat(x, n - 1)
  }

  /** `''.join(reversed(s))`. */
  function Reverse<T>(s: seq<T>): seq<T>
  {
    if s == [] then [] else Reverse(s[1..]) + [s[0]]
  }

  // ---------------------------------------------------------------------
  // Lemmas

  lemma JoinCons<T>(parts: seq<seq<T>>, sep: seq<T>)
    requires |parts| > 1
    ensures Join(parts, sep) == parts[0] + (sep + Join(parts[1..], sep))
  {
  }

  lemma JoinThree<T>(a: seq<T>, b: seq<T>, c: seq<T>, sep: seq<T>)
    ensures Join([a, b, c], sep) == a + sep + b + sep + c
  {
    var ps := [a, b, c];
    assert ps[1..] == [b, c] && ps[1..][1..] == [c];
    assert Join([c], sep) == c;
    assert Join([b, c], sep) == b + sep + c;
    assert Join(ps, sep) == a + sep + (b + sep + c);
  }

  lemma {:induction false} FlattenAppend<T>(parts: seq<seq<T>>, last: seq<T>)
    ensures Flatten(parts + [last]) == Flatten(parts) + last
  {
    if parts != [] {
      assert (parts + [last])[1..] == parts[1..] + [last];
      FlattenAppend(parts[1..], last);
    }
  }

  /** Replacing a one-character pattern commutes with concatenation. */
  lemma {:induction false} ReplaceCharConcat<T>(a: seq<T>, b: seq<T>, c: T, rep: seq<T>)
    ensures ReplaceAll(a + b, [c], rep) == ReplaceAll(a, [c], rep) + ReplaceAll(b, [c], rep)
  {
    if a != [] {
      assert (a + b)[1..] == a[1..] + b;
      assert (a + b)[..1] == [a[0]] && a[..1] == [a[0]];
      ReplaceCharConcat(a[1..], b, c, rep);
    } else {
      assert a + b == b;
    }
  }

  /** Replacing a one-character pattern that does not occur changes nothing. */
  lemma {:induction false} ReplaceCharAbsent<T>(s: seq<T>, c: T, rep: seq<T>)
    requires c !in s
    ensures ReplaceAll(s, [c], rep) == s
  {
    if s != [] {
      assert s[..1] == [s[0]];
      assert s == [s[0]] + s[1..];
      ReplaceCharAbsent(s[1..], c, rep);
    }
  }

  /** Replacing a one-character pattern by text without it leaves no
      occurrence of the pattern. */
  lemma {:induction false} ReplaceCharRemoves<T>(s: seq<T>, c: T, rep: seq<T>)
    requires c !in rep
    ensures c !in ReplaceAll(s, [c], rep)
  {
    if s != [] {
      assert s[..1] == [s[0]];
      ReplaceCharRemoves(s[1..], c, rep);
    }
  }

  /** Replacing a one-character pattern introduces nothing but the
      replacement. */
  lemma {:induction false} ReplaceCharKeepsAbsent<T>(s: seq<T>, c: T, rep: seq<T>, d: T)
    requires d !in s && d !in rep
    ensures d !in ReplaceAll(s, [c], rep)
  {
    if s != [] {
      assert s[..1] == [s[0]];
      assert d !in s[1..];
      ReplaceCharKeepsAbsent(s[1..], c, rep, d);
    }
  }

  /** Splitting on a separator that does not occur yields the whole string. */
  lemma {:induction false} SplitAbsent<T>(s: seq<T>, sep: T)
    requires sep !in s
    ensures Split(s, sep) == [s]
  {
    if s != [] {
      SplitAbsent(s[1..], sep);
      assert [s[0]] + s[1..] == s;
    }
  }

  /** A separator at the end opens one more, empty, piece. */
  lemma {:induction false} SplitSnoc<T>(s: seq<T>, sep: T)
    ensures Split(s + [sep], sep) == Split(s, sep) + [[]]
  {
    if s == [] {
      assert s + [sep] == [sep];
      assert [sep][1..] == [];
    } else {
      assert (s + [sep])[1..] == s[1..] + [sep];
      SplitSnoc(s[1..], sep);
      var r := Split(s[1..], sep);
      if s[0] != sep {
        assert (r + [[]])[0] == r[0];
        assert (r + [[]])[1..] == r[1..] + [[]];
      }
    }
  }

  /** Text without the separator extends the last piece. */
  lemma {:induction false} SplitAppendFree<T>(s: seq<T>, t: seq<T>, sep: T)
    requires sep !in t
    ensures var p := Split(s, sep);
            Split(s + t, sep) == p[..|p| - 1] + [p[|p| - 1] + t]
  {
    if s == [] {
      assert s + t == t;
      SplitAbsent(t, sep);
    } else {
      assert (s + t)[1..] == s[1..] + t;
      SplitAppendFree(s[1..], t, sep);
      SplitAppendStep(s, t, sep);
    }
  }

  lemma SplitAppendStep<T>(s: seq<T>, t: seq<T>, sep: T)
    requires s != []
    requires var r := Split(s[1..], sep);
             Split(s[1..] + t, sep) == r[..|r| - 1] + [r[|r| - 1] + t]
    ensures var p := Split(s, sep);
            Split(s + t, sep) == p[..|p| - 1] + [p[|p| - 1] + t]
  {
    assert (s + t)[0] == s[0] && (s + t)[1..] == s[1..] + t;
    var r := Split(s[1..], sep);
    if s[0] == sep {
      ExtendCons([], r, t);
    } else {
      ExtendFirst(s[0], r, t);
    }
  }

  /** Extending the last piece of a list of pieces leaves a first piece
      before it alone. */
  lemma ExtendCons<T>(h: seq<T>, r: seq<seq<T>>, t: seq<T>)
    requires |r| >= 1
    ensures var p := [h] + r;
            p[..|p| - 1] + [p[|p| - 1] + t] == [h] + (r[..|r| - 1] + [r[|r| - 1] + t])
  {
    var p := [h] + r;
    assert p[..|p| - 1] == [h] + r[..|r| - 1];
  }

  /** Extending the last piece commutes with growing the first one. */
  lemma ExtendFirst<T>(x: T, r: seq<seq<T>>, t: seq<T>)
    requires |r| >= 1
    ensures var p := [[x] + r[0]] + r[1..];
            var q := r[..|r| - 1] + [r[|r| - 1] + t];
            p[..|p| - 1] + [p[|p| - 1] + t] == [[x] + q[0]] + q[1..]
  {
    var p := [[x] + r[0]] + r[1..];
    var q := r[..|r| - 1] + [r[|r| - 1] + t];
    if |r| == 1 {
      assert q == [r[0] + t];
      assert p == [[x] + r[0]];
      assert [x] + (r[0] + t) == [x] + r[0] + t;
    } else {
      assert q[0] == r[0];
      assert q[1..] == r[1..|r| - 1] + [r[|r| - 1] + t];
      assert |p| == |r| && p[|p| - 1] == r[|r| - 1];
      assert p[..|p| - 1] == [[x] + r[0]] + r[1..|r| - 1];
    }
  }

  lemma {:induction false} TokenOfNoSpace(a: string, b: string)
    requires NoSpace(a)
    requires b == [] || IsSpace(b[0])
    ensures Token(a + b) == a
  {
    if a == [] {
      assert a + b == b;
    } else {
      assert (a + b)[1..] == a[1..] + b;
      TokenOfNoSpace(a[1..], b);
    }
  }

  lemma {:induction false} TokenOfSpaced(a: string, b: string)
    requires !NoSpace(a)
    ensures Token(a + b) == Token(a)
  {
    if !IsSpace(a[0]) {
      assert (a + b)[1..] == a[1..] + b;
      assert !NoSpace(a[1..]) by {
        var i :| 0 <= i < |a| && IsSpace(a[i]);
        assert a[1..][i - 1] == a[i];
      }
      TokenOfSpaced(a[1..], b);
    }
  }

  lemma {:induction false} TokenIsPrefix(s: string)
    ensures s[..|Token(s)|] == Token(s)
    ensures NoSpace(Token(s))
    ensures |Token(s)| < |s| ==> IsSpace(s[|Token(s)|])
  {
    if s != [] && !IsSpace(s[0]) {
      TokenIsPrefix(s[1..]);
    }
  }

  /** One step of `split()` on a string that starts with a word. */
  lemma WordsStep(s: string)
    requires s != [] && !IsSpace(s[0])
    ensures Words(s) == [Token(s)] + Words(s[|Token(s)|..])
  {
  }

  /** `split()` of a concatenation splits each side, provided the seam
      falls on whitespace or at an end. */
  lemma {:induction false} WordsConcat(a: string, b: string)
    requires a == [] || b == [] || IsSpace(a[|a| - 1]) || IsSpace(b[0])
    ensures Words(a + b) == Words(a) + Words(b)
    decreases |a|
  {
    if a == [] {
      assert a + b == b;
    } else if IsSpace(a[0]) {
      assert (a + b)[1..] == a[1..] + b;
      WordsConcat(a[1..], b);
    } else if NoSpace(a) {
      WordsConcatWord(a, b);
    } else {
      WordsConcatSpaced(a, b);
    }
  }

  lemma WordsConcatWord(a: string, b: string)
    requires a != [] && NoSpace(a)
    requires b == [] || IsSpace(b[0])
    ensures Words(a + b) == Words(a) + Words(b)
  {
    TokenOfNoSpace(a, b);
    WordsStep(a + b);
    assert (a + b)[|a|..] == b;
    WordsOfToken(a);
  }

  lemma {:induction false} WordsConcatSpaced(a: string, b: string)
    requires a != [] && !IsSpace(a[0]) && !NoSpace(a)
    requires b == [] || IsSpace(a[|a| - 1]) || IsSpace(b[0])
    ensures Words(a + b) == Words(a) + Words(b)
    decreases |a|, 0
  {
    WordsAfterToken(a, b);
    var rest := a[|Token(a)|..];
    assert rest[|rest| - 1] == a[|a| - 1];
    WordsConcat(rest, b);
  }

  /** A string that starts with a word and has whitespace after it: the
      word comes first, with or without text appended. */
  lemma WordsAfterToken(a: string, b: string)
    requires a != [] && !IsSpace(a[0]) && !NoSpace(a)
    ensures 0 < |Token(a)| < |a|
    ensures Words(a + b) == [Token(a)] + Words(a[|Token(a)|..] + b)
    ensures Words(a) == [Token(a)] + Words(a[|Token(a)|..])
  {
    var t := Token(a);
    assert 0 < |t| < |a| by {
      TokenIsPrefix(a);
    }
    TokenOfSpaced(a, b);
    WordsStep(a + b);
    assert (a + b)[|t|..] == a[|t|..] + b;
    WordsStep(a);
  }

  /** A non-empty run of non-whitespace is a single word. */
  lemma {:induction false} WordsOfToken(t: string)
    requires t != [] && NoSpace(t)
    ensures Words(t) == [t]
  {
    TokenOfNoSpace(t, []);
    assert t + [] == t;
    assert t[|t|..] == [];
  }
}
