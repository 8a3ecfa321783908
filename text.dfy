/** The string operations of Python that photo2kml.py applies to exiftool's
    output: `str.split` with a one-character separator, `str.replace(c, "")`,
    the slice `s[n:]`, and the lexicographic order `<` on strings. */
module Text {

  /** Inverse of `Split`: the pieces glued back together with `sep` between them. */
  function Join(pieces: seq<string>, sep: char): string
  {
    if |pieces| == 0 then ""
    else if |pieces| == 1 then pieces[0]
    else pieces[0] + [sep] + Join(pieces[1..], sep)
  }

  /** `s.split(sep)` for a one-character separator: every occurrence of `sep`
      cuts the string, empty pieces are kept, and the empty string yields [""]. */
  function Split(s: string, sep: char): (r: seq<string>)
    ensures |r| >= 1
    decreases |s|
  {
    if |s| == 0 then [""]
    else
      var rest := Split(s[1..], sep);
      if s[0] == sep then [""] + rest
      else [[s[0]] + rest[0]] + rest[1..]
  }

  /** The pieces of `Split` contain no separator, there is one more piece than
      there are separators, and joining them gives back the string. */
  lemma SplitSpec(s: string, sep: char)
    ensures |Split(s, sep)| == multiset(s)[sep] + 1
    ensures forall k :: 0 <= k < |Split(s, sep)| ==> sep !in Split(s, sep)[k]
    ensures Join(Split(s, sep), sep) == s
  {
    SplitCount(s, sep);
    SplitPieces(s, sep);
    JoinSplit(s, sep);
  }

  lemma {:induction false} SplitCount(s: string, sep: char)
    ensures |Split(s, sep)| == multiset(s)[sep] + 1
    decreases |s|
  {
    if |s| > 0 {
      SplitCount(s[1..], sep);
      assert s == [s[0]] + s[1..];
    }
  }

  lemma {:induction false} SplitPieces(s: string, sep: char)
    ensures forall k :: 0 <= k < |Split(s, sep)| ==> sep !in Split(s, sep)[k]
    decreases |s|
  {
    if |s| > 0 {
      var rest := Split(s[1..], sep);
      SplitPieces(s[1..], sep);
      if s[0] != sep {
        var r := Split(s, sep);
        forall k | 0 <= k < |r| ensures sep !in r[k] {
          if k > 0 {
            assert r[k] == rest[k];
          }
        }
      }
    }
  }

  lemma {:induction false} JoinSplit(s: string, sep: char)
    ensures Join(Split(s, sep), sep) == s
    decreases |s|
  {
    if |s| > 0 {
      var rest := Split(s[1..], sep);
      JoinSplit(s[1..], sep);
      assert s == [s[0]] + s[1..];
      if s[0] != sep {
        JoinPrepend(rest[0], s[0], rest[1..], sep);
        assert rest == [rest[0]] + rest[1..];
      }
    }
  }

  /** Prepending a character to the first piece prepends it to the joined string. */
  lemma JoinPrepend(x: string, c: char, t: seq<string>, sep: char)
    ensures Join([[c] + x] + t, sep) == [c] + Join([x] + t, sep)
  {
    if |t| > 0 {
      assert ([[c] + x] + t)[1..] == t;
      assert ([x] + t)[1..] == t;
    }
  }

  /** `Split` is the only way to cut a string into separator-free pieces:
      splitting what `Join` produced gives back the same pieces. */
  lemma {:induction false} SplitJoin(p: seq<string>, sep: char)
    requires |p| >= 1
    requires forall k :: 0 <= k < |p| ==> sep !in p[k]
    ensures Split(Join(p, sep), sep) == p
    decreases |Join(p, sep)|
  {
    var s := Join(p, sep);
    if |p[0]| == 0 {
      if |p| > 1 {
        assert s == [sep] + Join(p[1..], sep);
        assert s[1..] == Join(p[1..], sep);
        SplitJoin(p[1..], sep);
        assert p == [""] + p[1..];
      }
    } else {
      var c, x := p[0][0], p[0][1..];
      assert p[0] == [c] + x;
      assert p == [[c] + x] + p[1..];
      JoinPrepend(x, c, p[1..], sep);
      var q := [x] + p[1..];
      assert q[1..] == p[1..];
      assert forall k :: 0 <= k < |q| ==> sep !in q[k] by {
        forall k | 0 <= k < |q| ensures sep !in q[k] {
          if k == 0 {
            assert forall i :: 0 <= i < |x| ==> x[i] == p[0][i + 1];
          } else {
            assert q[k] == p[k];
          }
        }
      }
      assert s == [c] + Join(q, sep);
      assert s[1..] == Join(q, sep);
      SplitJoin(q, sep);
      assert c != sep by { assert c == p[0][0]; }
    }
  }

  /** `s.replace(c, "")`: every occurrence of `c` removed, all else kept in order. */
  function RemoveChar(s: string, c: char): string
  {
    if |s| == 0 then ""
    else (if s[0] == c then "" else [s[0]]) + RemoveChar(s[1..], c)
  }

  /** `RemoveChar` leaves no `c` behind, keeps every other character as often
      as it occurred, and changes nothing in a string without `c`. */
  lemma {:induction false} RemoveCharSpec(s: string, c: char)
    ensures c !in RemoveChar(s, c)
    ensures forall d :: d != c ==> multiset(RemoveChar(s, c))[d] == multiset(s)[d]
    ensures c !in s ==> RemoveChar(s, c) == s
  {
    if |s| > 0 {
      RemoveCharSpec(s[1..], c);
      assert s == [s[0]] + s[1..];
    }
  }

  /** Removing a character from a concatenation removes it from each part. */
  lemma {:induction false} RemoveCharAppend(a: string, b: string, c: char)
    ensures RemoveChar(a + b, c) == RemoveChar(a, c) + RemoveChar(b, c)
  {
    if |a| > 0 {
      assert (a + b)[0] == a[0] && (a + b)[1..] == a[1..] + b;
      RemoveCharAppend(a[1..], b, c);
    } else {
      assert a + b == b;
    }
  }

  /** `s.replace('"', "").replace('\'', "")`, the clean-up of the coordinate fields. */
  function StripQuotes(s: string): string
  {
    RemoveChar(RemoveChar(s, '"'), '\'')
  }

  /** The cleaned field holds no quote of either kind, keeps every other
      character as often as it occurred, and equals a field that had no quotes. */
  lemma StripQuotesSpec(s: string)
    ensures '"' !in StripQuotes(s) && '\'' !in StripQuotes(s)
    ensures forall d :: d != '"' && d != '\'' ==> multiset(StripQuotes(s))[d] == multiset(s)[d]
    ensures '"' !in s && '\'' !in s ==> StripQuotes(s) == s
  {
    var once := RemoveChar(s, '"');
    RemoveCharSpec(s, '"');
    RemoveCharSpec(once, '\'');
    assert '"' !in StripQuotes(s) by {
      assert multiset(StripQuotes(s))['"'] == multiset(once)['"'] == 0;
    }
  }

  /** The slice `s[n:]`: the first `n` characters dropped, or "" when `s` is shorter. */
  function DropPrefix(s: string, n: nat): (r: string)
    ensures n <= |s| ==> |r| == |s| - n && s == s[..n] + r
    ensures |s| <= n ==> r == ""
  {
    if |s| <= n then "" else s[n..]
  }

  /** Python's `a < b` on strings: lexicographic order by code point. */
  predicate LexLess(a: string, b: string)
  {
    if |b| == 0 then false
    else if |a| == 0 then true
    else a[0] < b[0] || (a[0] == b[0] && LexLess(a[1..], b[1..]))
  }

  /** Comparing two strings whose first `k` characters form blocks of the same
      length compares those blocks first and the remainders on a tie. */
  lemma {:induction false} LexLessSplit(a: string, b: string, k: nat)
    requires k <= |a| && k <= |b|
    ensures LexLess(a, b) <==>
            LexLess(a[..k], b[..k]) || (a[..k] == b[..k] && LexLess(a[k..], b[k..]))
  {
    if k > 0 {
      assert a[..k][1..] == a[1..][..k - 1] && b[..k][1..] == b[1..][..k - 1];
      assert a[k..] == a[1..][k - 1..] && b[k..] == b[1..][k - 1..];
      LexLessSplit(a[1..], b[1..], k - 1);
      if a[..k] == b[..k] {
        assert a[0] == a[..k][0] == b[..k][0] == b[0];
        assert a[1..][..k - 1] == b[1..][..k - 1];
      } else if a[0] == b[0] {
        assert a[1..][..k - 1] != b[1..][..k - 1] by {
          assert a[..k] == [a[0]] + a[1..][..k - 1];
          assert b[..k] == [b[0]] + b[1..][..k - 1];
        }
      }
    } else {
      assert a[..0] == b[..0] && a[0..] == a && b[0..] == b;
    }
  }

  /** `LexLess` is a strict total order: exactly one of a < b, a == b, b < a,
      and it is transitive. */
  lemma LexTrichotomy(a: string, b: string, c: string)
    ensures a == b || LexLess(a, b) || LexLess(b, a)
    ensures !(LexLess(a, b) && LexLess(b, a))
    ensures !LexLess(a, a)
    ensures LexLess(a, b) && LexLess(b, c) ==> LexLess(a, c)
  {
    LexTotal(a, b);
    LexTransitive(a, b, c);
  }

  lemma {:induction false} LexTotal(a: string, b: string)
    ensures a == b || LexLess(a, b) || LexLess(b, a)
    ensures !(LexLess(a, b) && LexLess(b, a))
    ensures !LexLess(a, a)
  {
    if |a| > 0 && |b| > 0 {
      LexTotal(a[1..], b[1..]);
      if a[0] == b[0] && a[1..] == b[1..] {
        assert a == [a[0]] + a[1..] && b == [b[0]] + b[1..];
      }
      LexTotal(a[1..], a[1..]);
    } else if |a| > 0 {
      LexTotal(a[1..], a[1..]);
    }
  }

  lemma {:induction false} LexTransitive(a: string, b: string, c: string)
    ensures LexLess(a, b) && LexLess(b, c) ==> LexLess(a, c)
  {
    if LexLess(a, b) && LexLess(b, c) && |a| > 0 {
      LexTransitive(a[1..], b[1..], c[1..]);
    }
  }
}
