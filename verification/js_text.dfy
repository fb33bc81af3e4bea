/**
 * The JavaScript string operations the scraper and the request handler rely on:
 * `trim`, `toLowerCase`, `includes`, `split` with a one-character separator,
 * `replace` of the first occurrence, and a global character-class `replace`.
 */
module JsText {
  import opened Optional

  /** A string-or-absent value in a boolean context: `null`, `undefined` and `""` are falsy. */
  predicate Truthy(o: Option<string>)
  {
    o.Some? && o.value != ""
  }

  /** JavaScript's WhiteSpace and LineTerminator code points: what `trim` and `parseInt` skip. */
  predicate IsJsSpace(c: char)
  {
    || c == '\t' || c == '\n' || c == '\U{000B}' || c == '\U{000C}' || c == '\r' || c == ' '
    || c == '\U{00A0}' || c == '\U{1680}' || ('\U{2000}' <= c <= '\U{200A}')
    || c == '\U{2028}' || c == '\U{2029}' || c == '\U{202F}' || c == '\U{205F}'
    || c == '\U{3000}' || c == '\U{FEFF}'
  }

  predicate IsDecimalDigit(c: char)
  {
    '0' <= c <= '9'
  }

  predicate AllDecimalDigits(s: string)
  {
    forall i | 0 <= i < |s| :: IsDecimalDigit(s[i])
  }

  /** Leading white space removed, as `parseInt` and `trimStart` do. */
  function TrimStart(s: string): (r: string)
    ensures |r| <= |s| && r == s[|s| - |r|..]
    ensures forall k | 0 <= k < |s| - |r| :: IsJsSpace(s[k])
    ensures |r| > 0 ==> !IsJsSpace(r[0])
  {
    if |s| > 0 && IsJsSpace(s[0]) then TrimStart(s[1..]) else s
  }

  function TrimEnd(s: string): (r: string)
    ensures |r| <= |s| && r == s[..|r|]
    ensures forall k | |r| <= k < |s| :: IsJsSpace(s[k])
    ensures |r| > 0 ==> !IsJsSpace(r[|r| - 1])
  {
    if |s| > 0 && IsJsSpace(s[|s| - 1]) then TrimEnd(s[..|s| - 1]) else s
  }

  /** `r` is `s` with `i` white-space code points cut from the front and only white space cut from the back. */
  predicate TrimmedAt(s: string, r: string, i: int)
  {
    && 0 <= i <= |s| - |r|
    && r == s[i..i + |r|]
    && (forall k | 0 <= k < i :: IsJsSpace(s[k]))
    && (forall k | i + |r| <= k < |s| :: IsJsSpace(s[k]))
  }

  /** `String.prototype.trim`: a slice of `s` with no white space at either end, cut only at white space. */
  function Trim(s: string): (r: string)
    ensures exists i :: TrimmedAt(s, r, i)
    ensures |r| > 0 ==> !IsJsSpace(r[0]) && !IsJsSpace(r[|r| - 1])
  {
    var t := TrimStart(s);
    var r := TrimEnd(t);
    var i := |s| - |t|;
    assert r == s[i..i + |r|];
    assert TrimmedAt(s, r, i);
    r
  }

  /**
   * `toLowerCase` of one code point. Only the ASCII letters, the Latin-1 capitals
   * (U+00C0..U+00DE except U+00D7) and the Kelvin sign U+212A (which lower-cases to `k`)
   * are mapped; see README for the rest of Unicode.
   */
  function LowerChar(c: char): char
  {
    if 'A' <= c <= 'Z' || ('\U{00C0}' <= c <= '\U{00DE}' && c != '\U{00D7}') then
      (c as int + 32) as char
    else if c == '\U{212A}' then 'k'
    else c
  }

  /** No code point of `s` changes under `toLowerCase`. */
  predicate IsLowerCased(s: string)
  {
    forall i | 0 <= i < |s| :: LowerChar(s[i]) == s[i]
  }

  /** `String.prototype.toLowerCase`: code point by code point, already lower-cased text unchanged. */
  function Lower(s: string): (r: string)
    ensures |r| == |s|
    ensures IsLowerCased(r)
    ensures forall i | 0 <= i < |r| :: !('A' <= r[i] <= 'Z')
    ensures IsLowerCased(s) ==> r == s
  {
    seq(|s|, i requires 0 <= i < |s| => LowerChar(s[i]))
  }

  /** Lower-casing twice is lower-casing once. */
  lemma LowerIdempotent(s: string)
    ensures Lower(Lower(s)) == Lower(s)
  {
  }

  /** Lower-casing a concatenation lower-cases each part. */
  lemma LowerAppend(a: string, b: string)
    ensures Lower(a + b) == Lower(a) + Lower(b)
  {
    assert forall i | 0 <= i < |a + b| :: Lower(a + b)[i] == (Lower(a) + Lower(b))[i];
  }

  /** `needle` occurs in `hay` starting at index `i`. */
  predicate OccursAt(hay: string, needle: string, i: int)
  {
    0 <= i && i + |needle| <= |hay| && hay[i..i + |needle|] == needle
  }

  /** `String.prototype.includes`, scanning from the left. */
  predicate Contains(hay: string, needle: string)
    decreases |hay|
  {
    |needle| <= |hay| && (hay[..|needle|] == needle || Contains(hay[1..], needle))
  }

  /** The scan agrees with the positional definition of a substring. */
  lemma {:induction false} ContainsIffOccurs(hay: string, needle: string)
    ensures Contains(hay, needle) <==> exists i :: OccursAt(hay, needle, i)
    decreases |hay|
  {
    if Contains(hay, needle) {
      if hay[..|needle|] == needle {
        assert OccursAt(hay, needle, 0);
      } else {
        ContainsIffOccurs(hay[1..], needle);
        var i :| OccursAt(hay[1..], needle, i);
        assert hay[1..][i..i + |needle|] == hay[i + 1..i + 1 + |needle|];
        assert OccursAt(hay, needle, i + 1);
      }
    }
    if exists i :: OccursAt(hay, needle, i) {
      var i :| OccursAt(hay, needle, i);
      if i > 0 {
        assert hay[1..][i - 1..i - 1 + |needle|] == hay[i..i + |needle|];
        assert OccursAt(hay[1..], needle, i - 1);
        ContainsIffOccurs(hay[1..], needle);
      }
    }
  }

  /** A substring of a substring is a substring. */
  lemma ContainsTransitive(a: string, b: string, c: string)
    requires Contains(a, b) && Contains(b, c)
    ensures Contains(a, c)
  {
    ContainsIffOccurs(a, b);
    ContainsIffOccurs(b, c);
    var i :| OccursAt(a, b, i);
    var j :| OccursAt(b, c, j);
    forall k | 0 <= k < |c|
      ensures a[i + j..i + j + |c|][k] == c[k]
    {
      assert b[j..j + |c|][k] == b[j + k];
      assert a[i..i + |b|][j + k] == a[i + j + k];
    }
    assert a[i + j..i + j + |c|] == c;
    assert OccursAt(a, c, i + j);
    ContainsIffOccurs(a, c);
  }

  /** `Contains` of a one-character needle is membership. */
  lemma {:induction false} ContainsChar(hay: string, c: char)
    ensures Contains(hay, [c]) <==> c in hay
    decreases |hay|
  {
    if |hay| > 0 {
      ContainsChar(hay[1..], c);
      assert hay == [hay[0]] + hay[1..];
    }
  }

  /** A string with no white space at either end is its own trim. */
  lemma TrimUnspaced(s: string)
    requires |s| > 0 ==> !IsJsSpace(s[0]) && !IsJsSpace(s[|s| - 1])
    ensures Trim(s) == s
  {
  }

  /** `b` is a part of `a + b + c`. */
  lemma ContainsInfix(a: string, b: string, c: string)
    ensures Contains(a + b + c, b)
  {
    var s := a + b + c;
    assert OccursAt(s, b, |a|) by {
      assert s[|a|..|a| + |b|] == b;
    }
    ContainsIffOccurs(s, b);
  }

  /** Whatever contains `needle` contains its first code point. */
  lemma ContainsFirst(hay: string, needle: string)
    requires |needle| > 0
    ensures Contains(hay, needle) ==> needle[0] in hay
  {
    ContainsIffOccurs(hay, needle);
    if Contains(hay, needle) {
      var i :| OccursAt(hay, needle, i);
      assert hay[i] == hay[i..i + |needle|][0];
    }
  }

  /** A part of `b` is a part of `a + b`. */
  lemma ContainsSuffix(a: string, b: string, n: string)
    requires Contains(b, n)
    ensures Contains(a + b, n)
  {
    ContainsIffOccurs(b, n);
    var i :| OccursAt(b, n, i);
    var s := a + b;
    assert OccursAt(s, n, |a| + i) by {
      assert s[|a| + i..|a| + i + |n|] == b[i..i + |n|];
    }
    ContainsIffOccurs(s, n);
  }

  /** A part of `a` is a part of `a + b`. */
  lemma ContainsPrefix(a: string, b: string, n: string)
    requires Contains(a, n)
    ensures Contains(a + b, n)
  {
    ContainsIffOccurs(a, n);
    var i :| OccursAt(a, n, i);
    var s := a + b;
    assert OccursAt(s, n, i) by {
      assert s[i..i + |n|] == a[i..i + |n|];
    }
    ContainsIffOccurs(s, n);
  }

  /** When the first code point of `n` does not occur in `pre`, `n` is a part of `pre + q` only as a part of `q`. */
  lemma ContainsAfter(pre: string, q: string, n: string)
    requires |n| > 0 && n[0] !in pre
    ensures Contains(pre + q, n) <==> Contains(q, n)
  {
    var s := pre + q;
    ContainsIffOccurs(s, n);
    ContainsIffOccurs(q, n);
    if Contains(s, n) {
      var i :| OccursAt(s, n, i);
      assert s[i] == s[i..i + |n|][0] == n[0];
      assert forall k | 0 <= k < |pre| :: s[k] == pre[k] && pre[k] in pre;
      assert OccursAt(q, n, i - |pre|) by {
        assert q[i - |pre|..i - |pre| + |n|] == s[i..i + |n|];
      }
    }
    if Contains(q, n) {
      ContainsSuffix(pre, q, n);
    }
  }

  /** `s.replace(/[^…]/g, "")`: keep exactly the code points `keep` accepts, in order. */
  function FilterChars(s: string, keep: char -> bool): (r: string)
    ensures |r| <= |s|
    ensures forall i | 0 <= i < |r| :: keep(r[i])
  {
    if |s| == 0 then ""
    else (if keep(s[0]) then [s[0]] else "") + FilterChars(s[1..], keep)
  }

  /** A code point survives the filter exactly when it occurs in `s` and is kept. */
  lemma {:induction false} FilterCharsMembership(s: string, keep: char -> bool, c: char)
    ensures c in FilterChars(s, keep) <==> c in s && keep(c)
    decreases |s|
  {
    if |s| > 0 {
      FilterCharsMembership(s[1..], keep, c);
      assert s == [s[0]] + s[1..];
    }
  }

  lemma {:induction false} FilterCharsAppend(a: string, b: string, keep: char -> bool)
    ensures FilterChars(a + b, keep) == FilterChars(a, keep) + FilterChars(b, keep)
    decreases |a|
  {
    if |a| == 0 {
      assert a + b == b;
    } else {
      assert (a + b)[1..] == a[1..] + b;
      FilterCharsAppend(a[1..], b, keep);
      var h := if keep(a[0]) then [a[0]] else "";
      assert FilterChars(a + b, keep) == h + FilterChars(a[1..] + b, keep);
    }
  }

  /** A string none of whose code points are kept vanishes. */
  lemma {:induction false} FilterCharsDropsAll(s: string, keep: char -> bool)
    requires forall i | 0 <= i < |s| :: !keep(s[i])
    ensures FilterChars(s, keep) == ""
    decreases |s|
  {
    if |s| > 0 {
      FilterCharsDropsAll(s[1..], keep);
    }
  }

  /** A string all of whose code points are kept passes through unchanged. */
  lemma {:induction false} FilterCharsKeepsAll(s: string, keep: char -> bool)
    requires forall i | 0 <= i < |s| :: keep(s[i])
    ensures FilterChars(s, keep) == s
    decreases |s|
  {
    if |s| > 0 {
      FilterCharsKeepsAll(s[1..], keep);
    }
  }

  /** `s.replace(/\D/g, '')`. */
  function KeepDigits(s: string): (r: string)
    ensures AllDecimalDigits(r)
  {
    FilterChars(s, IsDecimalDigit)
  }

  /** A code point is kept exactly when it is a digit of `s`. */
  lemma KeepDigitsMembership(s: string, c: char)
    ensures c in KeepDigits(s) <==> c in s && IsDecimalDigit(c)
  {
    FilterCharsMembership(s, IsDecimalDigit, c);
  }

  /** `s.replace(x, y)` with a string pattern `x` of one code point: only the first occurrence. */
  function ReplaceFirst(s: string, x: char, y: char): (r: string)
    ensures |r| == |s|
    ensures forall i | 0 <= i < |r| :: r[i] == s[i] || (s[i] == x && r[i] == y)
  {
    if |s| == 0 then ""
    else if s[0] == x then [y] + s[1..]
    else [s[0]] + ReplaceFirst(s[1..], x, y)
  }

  /** Without an occurrence of `x` the string is unchanged. */
  lemma {:induction false} ReplaceFirstAbsent(s: string, x: char, y: char)
    requires x !in s
    ensures ReplaceFirst(s, x, y) == s
    decreases |s|
  {
    if |s| > 0 {
      ReplaceFirstAbsent(s[1..], x, y);
    }
  }

  /** Only the first occurrence of `x` is replaced. */
  lemma {:induction false} ReplaceFirstAt(s: string, x: char, y: char, i: nat)
    requires i < |s| && s[i] == x && x !in s[..i]
    ensures ReplaceFirst(s, x, y) == s[..i] + [y] + s[i + 1..]
    decreases i
  {
    if i > 0 {
      assert s[0] in s[..i];
      var t := s[1..];
      assert t[..i - 1] == s[1..i];
      assert x !in t[..i - 1];
      ReplaceFirstAt(t, x, y, i - 1);
      assert t[i..] == s[i + 1..];
      assert s[..i] == [s[0]] + t[..i - 1];
    }
  }

  /** `s.split(sep)` for a separator of one code point: the pieces between separators. */
  function Split(s: string, sep: char): (r: seq<string>)
    ensures |r| >= 1
    ensures forall k | 0 <= k < |r| :: sep !in r[k]
  {
    if |s| == 0 then [""]
    else
      var rest := Split(s[1..], sep);
      if s[0] == sep then [""] + rest
      else [[s[0]] + rest[0]] + rest[1..]
  }

  /** `pieces.join(sep)`. */
  function Join(pieces: seq<string>, sep: char): string
  {
    if |pieces| == 0 then ""
    else if |pieces| == 1 then pieces[0]
    else pieces[0] + [sep] + Join(pieces[1..], sep)
  }

  /** Splitting loses nothing: joining the pieces gives the string back. */
  lemma {:induction false} JoinSplit(s: string, sep: char)
    ensures Join(Split(s, sep), sep) == s
    decreases |s|
  {
    if |s| > 0 {
      var rest := Split(s[1..], sep);
      JoinSplit(s[1..], sep);
      if s[0] == sep {
        assert Split(s, sep) == [""] + rest;
        assert ([""] + rest)[1..] == rest;
      } else {
        var pieces := [[s[0]] + rest[0]] + rest[1..];
        assert Split(s, sep) == pieces;
        if |rest| == 1 {
          assert s == [s[0]] + s[1..];
        } else {
          assert pieces[1..] == rest[1..];
          assert Join(rest, sep) == rest[0] + [sep] + Join(rest[1..], sep);
          assert s == [s[0]] + s[1..];
        }
      }
    }
  }

  /** The string before the first separator is the first piece. */
  lemma {:induction false} SplitFirstPiece(s: string, sep: char)
    ensures sep !in s ==> Split(s, sep) == [s]
    ensures forall i | 0 <= i < |s| && s[i] == sep && sep !in s[..i] :: Split(s, sep)[0] == s[..i]
    decreases |s|
  {
    if |s| > 0 {
      SplitFirstPiece(s[1..], sep);
      if s[0] != sep {
        forall i | 0 <= i < |s| && s[i] == sep && sep !in s[..i]
          ensures Split(s, sep)[0] == s[..i]
        {
          assert s[1..][i - 1] == sep;
          assert s[1..][..i - 1] == s[1..i];
          assert sep !in s[1..][..i - 1];
          assert s[..i] == [s[0]] + s[1..i];
        }
        if sep !in s {
          assert sep !in s[1..];
          assert s == [s[0]] + s[1..];
        }
      }
    }
  }

  /** There is a second piece exactly when the separator occurs. */
  lemma {:induction false} SplitHasSecond(s: string, sep: char)
    ensures |Split(s, sep)| >= 2 <==> sep in s
    decreases |s|
  {
    if |s| > 0 {
      SplitHasSecond(s[1..], sep);
      assert s == [s[0]] + s[1..];
    }
  }

  /** Splitting `p + [sep] + t` for a separator-free `p` peels off `p`. */
  lemma {:induction false} SplitCons(p: string, t: string, sep: char)
    requires sep !in p
    ensures Split(p + [sep] + t, sep) == [p] + Split(t, sep)
    decreases |p|
  {
    if |p| == 0 {
      assert p + [sep] + t == [sep] + t;
      assert ([sep] + t)[1..] == t;
    } else {
      var s := p + [sep] + t;
      assert s[1..] == p[1..] + [sep] + t;
      SplitCons(p[1..], t, sep);
      assert [s[0]] + p[1..] == p;
    }
  }

  /** Joining separator-free pieces and splitting again gives the pieces back. */
  lemma {:induction false} SplitJoin(pieces: seq<string>, sep: char)
    requires |pieces| >= 1
    requires forall k | 0 <= k < |pieces| :: sep !in pieces[k]
    ensures Split(Join(pieces, sep), sep) == pieces
    decreases |pieces|
  {
    if |pieces| == 1 {
      SplitFirstPiece(pieces[0], sep);
    } else {
      SplitJoin(pieces[1..], sep);
      SplitCons(pieces[0], Join(pieces[1..], sep), sep);
      assert pieces == [pieces[0]] + pieces[1..];
    }
  }
}
