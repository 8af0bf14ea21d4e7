/** Optional values, standing in for JavaScript's `undefined`/`null`. */
module Wrappers {

  datatype Option<+T> = None | Some(value: T)
}

/**
 * The few JavaScript string operations the application relies on, over
 * `string` (a `seq<char>`): `split` on one character, `join`, `trim`,
 * ASCII `toLowerCase`, `includes` and `replace(/-/g, ...)`.
 */
module Strings {

  /** The pieces of `s` between occurrences of `sep`, as `s.split(sep)`:
      empty pieces are kept and there is always at least one piece. */
  function Split(s: string, sep: char): (r: seq<string>)
    ensures |r| >= 1
    ensures forall i :: 0 <= i < |r| ==> sep !in r[i]
    decreases |s|
  {
    if |s| == 0 then [[]]
    else if s[0] == sep then [[]] + Split(s[1..], sep)
    else
      var rest := Split(s[1..], sep);
      [[s[0]] + rest[0]] + rest[1..]
  }

  /** `parts.join(sep)`: the empty list joins to the empty string. */
  function Join(parts: seq<string>, sep: string): string
  {
    if |parts| == 0 then []
    else if |parts| == 1 then parts[0]
    else parts[0] + sep + Join(parts[1..], sep)
  }

  /** `arr.filter(Boolean)` on strings: the empty strings are dropped, the
      others kept in order. */
  function NonEmpty(parts: seq<string>): (r: seq<string>)
    ensures |r| <= |parts|
    ensures forall i :: 0 <= i < |r| ==> r[i] != [] && r[i] in parts
    ensures forall p :: p in parts && p != [] ==> p in r
  {
    if |parts| == 0 then []
    else if parts[0] == [] then NonEmpty(parts[1..])
    else [parts[0]] + NonEmpty(parts[1..])
  }

  function Reverse<T>(s: seq<T>): (r: seq<T>)
    ensures |r| == |s|
    ensures forall i :: 0 <= i < |s| ==> r[i] == s[|s| - 1 - i]
  {
    if |s| == 0 then [] else Reverse(s[1..]) + [s[0]]
  }

  /** Splitting at a separator that is written between `a` and `b` splits
      the two sides independently. */
  lemma {:induction false} SplitConcat(a: string, sep: char, b: string)
    ensures Split(a + [sep] + b, sep) == Split(a, sep) + Split(b, sep)
    decreases |a|
  {
    if |a| == 0 {
      assert a + [sep] + b == [sep] + b;
      assert ([sep] + b)[1..] == b;
    } else {
      var s := a + [sep] + b;
      assert s[0] == a[0];
      assert s[1..] == a[1..] + [sep] + b;
      SplitConcat(a[1..], sep, b);
    }
  }

  /** Joining the pieces of a split with the same separator gives back the
      original string. */
  lemma {:induction false} JoinSplit(s: string, sep: char)
    ensures Join(Split(s, sep), [sep]) == s
    decreases |s|
  {
    if |s| > 0 {
      JoinSplit(s[1..], sep);
      var rest := Split(s[1..], sep);
      if s[0] == sep {
        assert Split(s, sep) == [[]] + rest;
        assert ([[]] + rest)[1..] == rest;
      } else {
        var parts := Split(s, sep);
        assert parts == [[s[0]] + rest[0]] + rest[1..];
        if |rest| > 1 {
          assert parts[1..] == rest[1..];
          assert Join(rest, [sep]) == rest[0] + [sep] + Join(rest[1..], [sep]);
          assert [s[0]] + s[1..] == s;
        } else {
          assert [s[0]] + s[1..] == s;
        }
      }
    }
  }

  /** The first piece of a split is the text before the first separator. */
  lemma {:induction false} SplitHeadIsPrefix(s: string, sep: char)
    ensures Split(s, sep)[0] <= s
    ensures var head := Split(s, sep)[0]; head == s || (|head| < |s| && s[|head|] == sep)
    ensures sep !in s ==> Split(s, sep) == [s]
    decreases |s|
  {
    if |s| > 0 && s[0] != sep {
      SplitHeadIsPrefix(s[1..], sep);
      assert s == [s[0]] + s[1..];
      var rest := Split(s[1..], sep);
      assert Split(s, sep)[0] == [s[0]] + rest[0];
      if |rest[0]| < |s[1..]| {
        assert s[|rest[0]| + 1] == s[1..][|rest[0]|];
      }
      if sep !in s {
        assert sep !in s[1..];
      }
    }
  }

  /** The last piece of a split is the text after the last separator: the
      whole string when there is no separator. */
  lemma {:induction false} SplitLastIsSuffix(s: string, sep: char)
    ensures var p := Split(s, sep); var l := p[|p| - 1];
            && |l| <= |s| && s[|s| - |l|..] == l
            && (|p| == 1 ==> l == s)
            && (|p| > 1 ==> |l| < |s| && s[|s| - |l| - 1] == sep)
    decreases |s|
  {
    if |s| > 0 {
      SplitLastIsSuffix(s[1..], sep);
      if s[0] != sep {
        LastAfterChar(s, sep);
      } else {
        LastAfterSep(s, sep);
      }
    }
  }

  /** The last piece of `Split(s, sep)` is the suffix after the last `sep`. */
  predicate LastPieceIsSuffix(s: string, sep: char)
  {
    var p := Split(s, sep); var l := p[|p| - 1];
    && |l| <= |s| && s[|s| - |l|..] == l
    && (|p| == 1 ==> l == s)
    && (|p| > 1 ==> |l| < |s| && s[|s| - |l| - 1] == sep)
  }

  lemma LastAfterChar(s: string, sep: char)
    requires |s| > 0 && s[0] != sep && LastPieceIsSuffix(s[1..], sep)
    ensures LastPieceIsSuffix(s, sep)
  {
    var rest := Split(s[1..], sep);
    var l := rest[|rest| - 1];
    assert s[1..][|s[1..]| - |l|..] == s[|s| - |l|..];
    var p := Split(s, sep);
    assert p == [[s[0]] + rest[0]] + rest[1..];
    if |rest| == 1 {
      assert p == [[s[0]] + s[1..]];
      assert [s[0]] + s[1..] == s;
    } else {
      assert p[|p| - 1] == l;
      assert s[1..][|s[1..]| - |l| - 1] == s[|s| - |l| - 1];
    }
  }

  lemma LastAfterSep(s: string, sep: char)
    requires |s| > 0 && s[0] == sep && LastPieceIsSuffix(s[1..], sep)
    ensures LastPieceIsSuffix(s, sep)
  {
    var rest := Split(s[1..], sep);
    var l := rest[|rest| - 1];
    assert s[1..][|s[1..]| - |l|..] == s[|s| - |l|..];
    var p := Split(s, sep);
    assert p == [[]] + rest;
    assert p[|p| - 1] == l;
    if |rest| > 1 {
      assert s[1..][|s[1..]| - |l| - 1] == s[|s| - |l| - 1];
    }
  }

  /** Dropping empty strings from a list that has none changes nothing. */
  lemma {:induction false} NonEmptyKeepsNonEmpty(parts: seq<string>)
    requires forall p :: p in parts ==> p != []
    ensures NonEmpty(parts) == parts
    decreases |parts|
  {
    if |parts| > 0 {
      assert parts[0] in parts;
      assert forall p :: p in parts[1..] ==> p in parts;
      NonEmptyKeepsNonEmpty(parts[1..]);
      assert parts == [parts[0]] + parts[1..];
    }
  }

  lemma {:induction false} NonEmptyConcat(a: seq<string>, b: seq<string>)
    ensures NonEmpty(a + b) == NonEmpty(a) + NonEmpty(b)
    decreases |a|
  {
    if |a| == 0 {
      assert a + b == b;
    } else {
      assert (a + b)[0] == a[0];
      assert (a + b)[1..] == a[1..] + b;
      NonEmptyConcat(a[1..], b);
    }
  }

  /** The characters JavaScript's `String.prototype.trim` removes: the
      WhiteSpace and LineTerminator code points of ECMAScript. */
  predicate IsWhitespace(c: char)
  {
    || c == '\t' || c == '\n' || c == '\U{B}' || c == '\U{C}' || c == '\r' || c == ' '
    || c == '\U{A0}' || c == '\U{1680}' || ('\U{2000}' <= c <= '\U{200A}')
    || c == '\U{2028}' || c == '\U{2029}' || c == '\U{202F}' || c == '\U{205F}'
    || c == '\U{3000}' || c == '\U{FEFF}'
  }

  predicate AllWhitespace(s: string)
  {
    forall i :: 0 <= i < |s| ==> IsWhitespace(s[i])
  }

  function TrimStart(s: string): (r: string)
    ensures |r| <= |s| && r == s[|s| - |r|..]
    ensures |r| > 0 ==> !IsWhitespace(r[0])
    ensures AllWhitespace(s[..|s| - |r|])
  {
    if |s| > 0 && IsWhitespace(s[0]) then TrimStart(s[1..]) else s
  }

  function TrimEnd(s: string): (r: string)
    ensures |r| <= |s| && r == s[..|r|]
    ensures |r| > 0 ==> !IsWhitespace(r[|r| - 1])
    ensures AllWhitespace(s[|r|..])
  {
    if |s| > 0 && IsWhitespace(s[|s| - 1]) then TrimEnd(s[..|s| - 1]) else s
  }

  /** `s.trim()`: leading and trailing whitespace removed. */
  function Trim(s: string): (r: string)
    ensures |r| <= |s|
    ensures |r| > 0 ==> !IsWhitespace(r[0]) && !IsWhitespace(r[|r| - 1])
    ensures r == [] <==> AllWhitespace(s)
    ensures exists k :: TrimmedAt(s, r, k)
  {
    TrimStartAllWhitespace(s);
    TrimIsInfix(s);
    TrimEnd(TrimStart(s))
  }

  /** `r` occurs in `s` at `k`, with only whitespace before and after it. */
  predicate TrimmedAt(s: string, r: string, k: int)
  {
    0 <= k <= |s| - |r| && s[k..k + |r|] == r && AllWhitespace(s[..k]) && AllWhitespace(s[k + |r|..])
  }

  /** The trimmed text sits in `s` between two runs of whitespace. */
  lemma {:induction false} TrimIsInfix(s: string)
    ensures TrimmedAt(s, TrimEnd(TrimStart(s)), |s| - |TrimStart(s)|)
  {
    var t := TrimStart(s);
    var r := TrimEnd(t);
    TrimStartIsTrimmed(s);
    TrimEndIsTrimmed(t);
    TrimmedAtCompose(s, t, r, |s| - |t|);
  }

  lemma {:induction false} TrimStartIsTrimmed(s: string)
    ensures TrimmedAt(s, TrimStart(s), |s| - |TrimStart(s)|)
  {
    var t := TrimStart(s);
    assert s[|s|..] == [];
  }

  lemma {:induction false} TrimEndIsTrimmed(t: string)
    ensures TrimmedAt(t, TrimEnd(t), 0)
  {
    assert t[..0] == [];
  }

  lemma {:induction false} TrimmedAtCompose(s: string, t: string, r: string, k: int)
    requires TrimmedAt(s, t, k) && TrimmedAt(t, r, 0)
    ensures TrimmedAt(s, r, k)
  {
    assert s[k..k + |r|] == t[..|r|];
    assert s[k + |r|..] == s[k + |r|..k + |t|] + s[k + |t|..];
    assert s[k + |r|..k + |t|] == t[|r|..];
    AllWhitespaceConcat(t[|r|..], s[k + |t|..]);
  }

  lemma AllWhitespaceConcat(a: string, b: string)
    requires AllWhitespace(a) && AllWhitespace(b)
    ensures AllWhitespace(a + b)
  {
    assert forall i :: 0 <= i < |a + b| ==> (a + b)[i] == if i < |a| then a[i] else b[i - |a|];
  }

  lemma {:induction false} TrimStartAllWhitespace(s: string)
    ensures TrimStart(s) == [] <==> AllWhitespace(s)
    ensures TrimEnd(TrimStart(s)) == [] <==> TrimStart(s) == []
    decreases |s|
  {
    if |s| > 0 && IsWhitespace(s[0]) {
      TrimStartAllWhitespace(s[1..]);
      if AllWhitespace(s[1..]) {
        assert forall i :: 0 <= i < |s| ==> IsWhitespace(s[i]) by {
          forall i | 0 <= i < |s| ensures IsWhitespace(s[i]) {
            if i > 0 { assert s[i] == s[1..][i - 1]; }
          }
        }
      } else {
        var i :| 0 <= i < |s[1..]| && !IsWhitespace(s[1..][i]);
        assert !IsWhitespace(s[i + 1]);
      }
    }
  }

  /** Leading whitespace is what `TrimStart` removes. */
  lemma {:induction false} TrimStartSkipsWhitespace(ws: string, s: string)
    requires AllWhitespace(ws)
    ensures TrimStart(ws + s) == TrimStart(s)
    decreases |ws|
  {
    if |ws| > 0 {
      assert (ws + s)[0] == ws[0];
      assert (ws + s)[1..] == ws[1..] + s;
      TrimStartSkipsWhitespace(ws[1..], s);
    } else {
      assert ws + s == s;
    }
  }

  /** Trailing whitespace is what `TrimEnd` removes. */
  lemma {:induction false} TrimEndSkipsWhitespace(s: string, ws: string)
    requires AllWhitespace(ws)
    ensures TrimEnd(s + ws) == TrimEnd(s)
    decreases |ws|
  {
    if |ws| > 0 {
      var t := s + ws;
      assert t[|t| - 1] == ws[|ws| - 1];
      assert t[..|t| - 1] == s + ws[..|ws| - 1];
      TrimEndSkipsWhitespace(s, ws[..|ws| - 1]);
    } else {
      assert s + ws == s;
    }
  }

  /** Once a non-whitespace character has been met, `TrimStart` keeps the rest. */
  lemma {:induction false} TrimStartKeepsTail(s: string, t: string)
    requires !AllWhitespace(s)
    ensures TrimStart(s + t) == TrimStart(s) + t
    decreases |s|
  {
    assert (s + t)[0] == s[0];
    if IsWhitespace(s[0]) {
      assert (s + t)[1..] == s[1..] + t;
      var i :| 0 <= i < |s| && !IsWhitespace(s[i]);
      assert i > 0 && s[1..][i - 1] == s[i];
      TrimStartKeepsTail(s[1..], t);
    }
  }

  /** Surrounding whitespace never changes what `trim` returns. */
  lemma TrimIgnoresPadding(ws: string, s: string, ws': string)
    requires AllWhitespace(ws) && AllWhitespace(ws')
    ensures Trim(ws + s + ws') == Trim(s)
  {
    assert ws + s + ws' == ws + (s + ws');
    TrimStartSkipsWhitespace(ws, s + ws');
    if AllWhitespace(s) {
      assert s + ws' == s + ws';
      assert AllWhitespace(s + ws');
      TrimStartAllWhitespace(s + ws');
      TrimStartAllWhitespace(s);
    } else {
      TrimStartKeepsTail(s, ws');
      TrimEndSkipsWhitespace(TrimStart(s), ws');
    }
  }

  /** ASCII-only `toLowerCase`: `A`..`Z` become `a`..`z`, everything else is kept. */
  function LowerChar(c: char): (r: char)
    ensures 'A' <= c <= 'Z' ==> 'a' <= r <= 'z'
    ensures !('A' <= c <= 'Z') ==> r == c
  {
    if 'A' <= c <= 'Z' then (c as int - 'A' as int + 'a' as int) as char else c
  }

  function ToLower(s: string): (r: string)
    ensures |r| == |s|
    ensures forall i :: 0 <= i < |s| ==> r[i] == LowerChar(s[i])
  {
    if |s| == 0 then [] else [LowerChar(s[0])] + ToLower(s[1..])
  }

  lemma LowerKeepsWhitespace(c: char)
    ensures IsWhitespace(LowerChar(c)) == IsWhitespace(c)
  {
  }

  /** Lower-casing commutes with trimming, since no ASCII letter is whitespace. */
  lemma {:induction false} TrimLowerCommute(s: string)
    ensures Trim(ToLower(s)) == ToLower(Trim(s))
  {
    TrimStartLowerCommute(s);
    TrimEndLowerCommute(TrimStart(s));
  }

  lemma {:induction false} TrimStartLowerCommute(s: string)
    ensures TrimStart(ToLower(s)) == ToLower(TrimStart(s))
    decreases |s|
  {
    if |s| > 0 {
      LowerKeepsWhitespace(s[0]);
      assert ToLower(s)[1..] == ToLower(s[1..]);
      TrimStartLowerCommute(s[1..]);
    }
  }

  lemma {:induction false} TrimEndLowerCommute(s: string)
    ensures TrimEnd(ToLower(s)) == ToLower(TrimEnd(s))
    decreases |s|
  {
    if |s| > 0 {
      LowerKeepsWhitespace(s[|s| - 1]);
      assert ToLower(s)[..|s| - 1] == ToLower(s[..|s| - 1]);
      TrimEndLowerCommute(s[..|s| - 1]);
    }
  }

  /** `s.includes(q)`: `q` occurs in `s` as a contiguous block. */
  predicate Contains(s: string, q: string)
  {
    exists i :: 0 <= i <= |s| - |q| && OccursAt(s, q, i)
  }

  predicate OccursAt(s: string, q: string, i: int)
  {
    0 <= i <= |s| - |q| && s[i..i + |q|] == q
  }

  /** `s.replace(/-/g, with)`: every `-` replaced by `with`. */
  function ReplaceDashes(s: string, with: string): (r: string)
    ensures '-' !in with ==> '-' !in r
    ensures '-' !in s ==> r == s
  {
    if |s| == 0 then []
    else (if s[0] == '-' then with else [s[0]]) + ReplaceDashes(s[1..], with)
  }

  /** Replacing every `-` is the same as splitting at `-` and joining the
      pieces with the replacement. */
  lemma {:induction false} ReplaceDashesIsSplitJoin(s: string, with: string)
    ensures ReplaceDashes(s, with) == Join(Split(s, '-'), with)
    decreases |s|
  {
    if |s| > 0 {
      ReplaceDashesIsSplitJoin(s[1..], with);
      var rest := Split(s[1..], '-');
      if s[0] == '-' {
        assert Split(s, '-') == [[]] + rest;
        assert ([[]] + rest)[1..] == rest;
      } else {
        var parts := Split(s, '-');
        assert parts == [[s[0]] + rest[0]] + rest[1..];
        if |rest| > 1 {
          assert parts[1..] == rest[1..];
          assert Join(rest, with) == rest[0] + with + Join(rest[1..], with);
        }
      }
    }
  }
}
