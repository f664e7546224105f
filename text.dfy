/**
 * The string operations the merge applies to rendered text: Python's `str.split(sep)` for a
 * one-character separator, `str.strip()`, and `re.sub(r"\s+", " ", s)`. Whitespace is a parameter
 * `isSpace`; `IsPySpace` is the set Python uses for both `str.strip()` and `\s` on `str` patterns.
 */
module Text {

  /** The characters for which Python's `str.isspace()` holds (and which `\s` matches). */
  predicate IsPySpace(c: char) {
    || ('\t' <= c <= '\r')
    || ('\U{1C}' <= c <= '\U{1F}')
    || c == ' '
    || c == '\U{85}'
    || c == '\U{A0}'
    || c == '\U{1680}'
    || ('\U{2000}' <= c <= '\U{200A}')
    || c == '\U{2028}'
    || c == '\U{2029}'
    || c == '\U{202F}'
    || c == '\U{205F}'
    || c == '\U{3000}'
  }

  // ---------------------------------------------------------------------------------------------
  // Splitting on a separator

  /** `s.split(sep)`: the pieces between separators; never empty, "" splits to [""]. */
  function Split(s: string, sep: char): (parts: seq<string>)
    ensures |parts| >= 1
    decreases |s|
  {
    if |s| == 0 then [""]
    else
      var rest := Split(s[1..], sep);
      if s[0] == sep then [""] + rest
      else [[s[0]] + rest[0]] + rest[1..]
  }

  /** There is one piece more than there are separators, and no piece holds the separator. */
  lemma {:induction false} SplitPieces(s: string, sep: char)
    ensures |Split(s, sep)| == multiset(s)[sep] + 1
    ensures forall i :: 0 <= i < |Split(s, sep)| ==> sep !in Split(s, sep)[i]
    decreases |s|
  {
    if |s| > 0 {
      SplitPieces(s[1..], sep);
      Uncons(s);
      var rest := Split(s[1..], sep);
      if s[0] != sep {
        var parts := Split(s, sep);
        assert parts[0] == [s[0]] + rest[0];
        assert forall i :: 1 <= i < |parts| ==> parts[i] == rest[i];
      }
    }
  }

  /** `sep.join(parts)`, the inverse of `Split`. */
  function Join(parts: seq<string>, sep: char): string
  {
    if |parts| == 0 then ""
    else if |parts| == 1 then parts[0]
    else parts[0] + [sep] + Join(parts[1..], sep)
  }

  /** Joining the pieces back with the separator gives the original text. */
  lemma {:induction false} JoinSplit(s: string, sep: char)
    ensures Join(Split(s, sep), sep) == s
    decreases |s|
  {
    if |s| > 0 {
      JoinSplit(s[1..], sep);
      var rest := Split(s[1..], sep);
      if s[0] == sep {
        assert Split(s, sep) == [""] + rest;
        assert (([""] + rest)[1..]) == rest;
      } else {
        JoinSplitHead(s[0], rest, sep);
      }
    }
  }

  /** Prefixing a non-separator character to the first piece prefixes it to the joined text. */
  lemma JoinSplitHead(c: char, rest: seq<string>, sep: char)
    requires |rest| >= 1
    ensures Join([[c] + rest[0]] + rest[1..], sep) == [c] + Join(rest, sep)
  {
    var ps := [[c] + rest[0]] + rest[1..];
    if |rest| > 1 {
      assert ps[1..] == rest[1..];
    }
  }

  /** Splitting separator-free pieces joined by the separator gives the pieces back. */
  lemma {:induction false} SplitJoin(parts: seq<string>, sep: char)
    requires |parts| >= 1
    requires forall i :: 0 <= i < |parts| ==> sep !in parts[i]
    ensures Split(Join(parts, sep), sep) == parts
    decreases |parts|
  {
    if |parts| == 1 {
      SplitFree(parts[0], sep);
    } else {
      SplitJoin(parts[1..], sep);
      SplitPrefix(parts[0], Join(parts[1..], sep), sep);
      Uncons(parts);
    }
  }

  /** A text without the separator is one piece. */
  lemma {:induction false} SplitFree(s: string, sep: char)
    requires sep !in s
    ensures Split(s, sep) == [s]
    decreases |s|
  {
    if |s| > 0 {
      assert s == [s[0]] + s[1..];
      SplitFree(s[1..], sep);
    }
  }

  /** A separator-free head followed by the separator starts a new piece. */
  lemma {:induction false} SplitPrefix(p: string, t: string, sep: char)
    requires sep !in p
    ensures Split(p + [sep] + t, sep) == [p] + Split(t, sep)
    decreases |p|
  {
    if |p| == 0 {
      assert p + [sep] + t == [sep] + t;
      assert ([sep] + t)[1..] == t;
    } else {
      var s := p + [sep] + t;
      assert s[0] == p[0];
      assert s[1..] == p[1..] + [sep] + t;
      SplitPrefix(p[1..], t, sep);
      var rest := Split(s[1..], sep);
      assert rest[0] == p[1..] && rest[1..] == Split(t, sep);
      assert Split(s, sep) == [[p[0]] + p[1..]] + Split(t, sep);
      Uncons(p);
    }
  }

  // ---------------------------------------------------------------------------------------------
  // Stripping surrounding whitespace

  /** The number of whitespace characters that open `s`. */
  function LeadingSpaces(isSpace: char -> bool, s: string): (k: nat)
    ensures k <= |s|
    ensures forall i :: 0 <= i < k ==> isSpace(s[i])
    ensures k < |s| ==> !isSpace(s[k])
  {
    if |s| > 0 && isSpace(s[0]) then 1 + LeadingSpaces(isSpace, s[1..]) else 0
  }

  /** The number of whitespace characters that close `s`. */
  function TrailingSpaces(isSpace: char -> bool, s: string): (k: nat)
    ensures k <= |s|
    ensures forall i :: |s| - k <= i < |s| ==> isSpace(s[i])
    ensures k < |s| ==> !isSpace(s[|s| - 1 - k])
  {
    if |s| > 0 && isSpace(s[|s| - 1]) then 1 + TrailingSpaces(isSpace, s[..|s| - 1]) else 0
  }

  /**
   * `s.strip()`: `s` without its leading and trailing whitespace. The result is the infix of `s`
   * that starts and ends with non-whitespace, and everything around it in `s` is whitespace.
   */
  function Strip(isSpace: char -> bool, s: string): (r: string)
    ensures |r| <= |s|
    ensures r != [] ==> !isSpace(r[0]) && !isSpace(r[|r| - 1])
    ensures var i := LeadingSpaces(isSpace, s);
            i + |r| <= |s| && s[i..i + |r|] == r && forall k :: i + |r| <= k < |s| ==> isSpace(s[k])
  {
    var i := LeadingSpaces(isSpace, s);
    var t := s[i..];
    var j := TrailingSpaces(isSpace, t);
    var r := t[..|t| - j];
    assert s[i..i + |r|] == r;
    assert forall k :: i + |r| <= k < |s| ==> s[k] == t[k - i];
    r
  }

  /** Stripping twice strips nothing more. */
  lemma StripIdempotent(isSpace: char -> bool, s: string)
    ensures Strip(isSpace, Strip(isSpace, s)) == Strip(isSpace, s)
  {
    var r := Strip(isSpace, s);
    StripFixedPoint(isSpace, r);
  }

  /** A text is its own strip exactly when it is empty or starts and ends with non-whitespace. */
  lemma StripFixedPoint(isSpace: char -> bool, s: string)
    ensures Strip(isSpace, s) == s <==> (s == [] || (!isSpace(s[0]) && !isSpace(s[|s| - 1])))
  {
    if s != [] && !isSpace(s[0]) && !isSpace(s[|s| - 1]) {
      assert LeadingSpaces(isSpace, s) == 0;
      assert s[0..] == s;
      assert TrailingSpaces(isSpace, s) == 0;
      assert s[..|s|] == s;
    }
  }

  // ---------------------------------------------------------------------------------------------
  // Collapsing runs of whitespace

  /** The non-whitespace characters of `s`, in order. */
  function NonSpace(isSpace: char -> bool, s: string): string
  {
    if |s| == 0 then ""
    else (if isSpace(s[0]) then "" else [s[0]]) + NonSpace(isSpace, s[1..])
  }

  /**
   * `re.sub(r"\s+", " ", s)`: every maximal run of whitespace replaced by one space. In the result
   * the only whitespace is the space itself, and no two whitespace characters are adjacent. Only
   * the empty text collapses to the empty text, and the result starts and ends with whitespace
   * exactly when `s` does: nothing is stripped. `CollapseRun` states what becomes of each run.
   */
  function CollapseSpaces(isSpace: char -> bool, s: string): (r: string)
    ensures forall i :: 0 <= i < |r| && isSpace(r[i]) ==> r[i] == ' '
    ensures forall i :: 0 <= i < |r| - 1 ==> !isSpace(r[i]) || !isSpace(r[i + 1])
    ensures |r| <= |s|
    ensures r == [] <==> s == []
    ensures r != [] && isSpace(' ') ==> (isSpace(r[0]) <==> isSpace(s[0]))
    ensures r != [] && isSpace(' ') ==> (isSpace(r[|r| - 1]) <==> isSpace(s[|s| - 1]))
    decreases |s|
  {
    if |s| == 0 then ""
    else if isSpace(s[0]) then
      var k := LeadingSpaces(isSpace, s);
      assert k == |s| ==> isSpace(s[|s| - 1]);
      " " + CollapseSpaces(isSpace, s[k..])
    else
      [s[0]] + CollapseSpaces(isSpace, s[1..])
  }

  /**
   * A run of whitespace between non-whitespace (or an end of the text) becomes a single space, and
   * the text on either side is collapsed on its own.
   */
  lemma CollapseRun(isSpace: char -> bool, u: string, w: string, v: string)
    requires w != [] && forall i :: 0 <= i < |w| ==> isSpace(w[i])
    requires u == [] || !isSpace(u[|u| - 1])
    requires v == [] || !isSpace(v[0])
    ensures CollapseSpaces(isSpace, u + w + v) == CollapseSpaces(isSpace, u) + " " + CollapseSpaces(isSpace, v)
  {
    var t := w + v;
    assert CollapseSpaces(isSpace, u + w + v) == CollapseSpaces(isSpace, u) + CollapseSpaces(isSpace, t) by {
      Associate(u, w, v);
      CollapseConcat(isSpace, u, t);
    }
    assert CollapseSpaces(isSpace, t) == " " + CollapseSpaces(isSpace, v) by {
      LeadingRun(isSpace, w, v);
      assert t[|w|..] == v;
      CollapseSpaceHead(isSpace, t);
    }
    Associate(CollapseSpaces(isSpace, u), " ", CollapseSpaces(isSpace, v));
  }

  /** Text opening with whitespace collapses to a space and the rest after that run. */
  lemma CollapseSpaceHead(isSpace: char -> bool, s: string)
    requires s != [] && isSpace(s[0])
    ensures CollapseSpaces(isSpace, s) == " " + CollapseSpaces(isSpace, s[LeadingSpaces(isSpace, s)..])
  {
  }

  /** Text opening with non-whitespace keeps that character and collapses the rest. */
  lemma CollapseCharHead(isSpace: char -> bool, s: string)
    requires s != [] && !isSpace(s[0])
    ensures CollapseSpaces(isSpace, s) == [s[0]] + CollapseSpaces(isSpace, s[1..])
  {
  }

  /** A whitespace run followed by text that does not start with whitespace opens with exactly that run. */
  lemma {:induction false} LeadingRun(isSpace: char -> bool, w: string, v: string)
    requires forall i :: 0 <= i < |w| ==> isSpace(w[i])
    requires v == [] || !isSpace(v[0])
    ensures LeadingSpaces(isSpace, w + v) == |w|
    decreases |w|
  {
    if |w| > 0 {
      assert (w + v)[1..] == w[1..] + v;
      LeadingRun(isSpace, w[1..], v);
    } else {
      assert w + v == v;
    }
  }

  /** Text ending in non-whitespace collapses independently of what follows it. */
  lemma {:induction false} CollapseConcat(isSpace: char -> bool, u: string, v: string)
    requires u == [] || !isSpace(u[|u| - 1])
    ensures CollapseSpaces(isSpace, u + v) == CollapseSpaces(isSpace, u) + CollapseSpaces(isSpace, v)
    decreases |u|
  {
    if |u| == 0 {
      assert u + v == v;
    } else {
      var s := u + v;
      var c := if isSpace(u[0]) then " " else [u[0]];
      var k := if isSpace(u[0]) then LeadingSpaces(isSpace, u) else 1;
      if isSpace(u[0]) {
        LeadingPrefix(isSpace, u, v);
        CollapseSpaceHead(isSpace, s);
        CollapseSpaceHead(isSpace, u);
      } else {
        CollapseCharHead(isSpace, s);
        CollapseCharHead(isSpace, u);
      }
      assert CollapseSpaces(isSpace, s[k..]) == CollapseSpaces(isSpace, u[k..]) + CollapseSpaces(isSpace, v) by {
        DropConcat(u, v, k);
        CollapseConcat(isSpace, u[k..], v);
      }
      Associate(c, CollapseSpaces(isSpace, u[k..]), CollapseSpaces(isSpace, v));
    }
  }

  lemma Associate<T>(a: seq<T>, b: seq<T>, c: seq<T>)
    ensures a + (b + c) == a + b + c
  {
  }

  lemma DropConcat<T>(a: seq<T>, b: seq<T>, k: nat)
    requires k <= |a|
    ensures (a + b)[k..] == a[k..] + b
  {
  }

  /** The whitespace opening text that ends in non-whitespace does not reach what follows. */
  lemma {:induction false} LeadingPrefix(isSpace: char -> bool, u: string, v: string)
    requires u != [] && !isSpace(u[|u| - 1])
    ensures LeadingSpaces(isSpace, u + v) == LeadingSpaces(isSpace, u) < |u|
    decreases |u|
  {
    if |u| > 1 && isSpace(u[0]) {
      assert (u + v)[1..] == u[1..] + v;
      LeadingPrefix(isSpace, u[1..], v);
    }
  }

  /** Collapsing whitespace removes and adds only whitespace (space itself being whitespace). */
  lemma {:induction false} CollapseKeepsText(isSpace: char -> bool, s: string)
    requires isSpace(' ')
    ensures NonSpace(isSpace, CollapseSpaces(isSpace, s)) == NonSpace(isSpace, s)
    decreases |s|
  {
    if |s| > 0 {
      if isSpace(s[0]) {
        var k := LeadingSpaces(isSpace, s);
        CollapseKeepsText(isSpace, s[k..]);
        NonSpacePrefix(isSpace, s, k);
        var r := " " + CollapseSpaces(isSpace, s[k..]);
        assert r[1..] == CollapseSpaces(isSpace, s[k..]);
      } else {
        CollapseKeepsText(isSpace, s[1..]);
        var r := [s[0]] + CollapseSpaces(isSpace, s[1..]);
        assert r[1..] == CollapseSpaces(isSpace, s[1..]);
      }
    }
  }

  /** Dropping a whitespace-only prefix does not change the non-whitespace text. */
  lemma {:induction false} NonSpacePrefix(isSpace: char -> bool, s: string, k: nat)
    requires k <= |s|
    requires forall i :: 0 <= i < k ==> isSpace(s[i])
    ensures NonSpace(isSpace, s) == NonSpace(isSpace, s[k..])
    decreases k
  {
    if k > 0 {
      NonSpacePrefix(isSpace, s[1..], k - 1);
      assert s[1..][k - 1..] == s[k..];
    }
  }

  /**
   * A text is left unchanged by collapsing exactly when its only whitespace is single spaces:
   * every whitespace character is ' ' and no two are adjacent.
   */
  lemma CollapseFixedPoint(isSpace: char -> bool, s: string)
    requires isSpace(' ')
    ensures CollapseSpaces(isSpace, s) == s <==>
            (forall i :: 0 <= i < |s| && isSpace(s[i]) ==> s[i] == ' ') &&
            (forall i :: 0 <= i < |s| - 1 ==> !isSpace(s[i]) || !isSpace(s[i + 1]))
  {
    if (forall i :: 0 <= i < |s| && isSpace(s[i]) ==> s[i] == ' ') &&
       (forall i :: 0 <= i < |s| - 1 ==> !isSpace(s[i]) || !isSpace(s[i + 1]))
    {
      CollapseKeepsSingle(isSpace, s);
    }
  }

  /** A text whose only whitespace is single spaces is left as it is by collapsing. */
  lemma {:induction false} CollapseKeepsSingle(isSpace: char -> bool, s: string)
    requires isSpace(' ')
    requires forall i :: 0 <= i < |s| && isSpace(s[i]) ==> s[i] == ' '
    requires forall i :: 0 <= i < |s| - 1 ==> !isSpace(s[i]) || !isSpace(s[i + 1])
    ensures CollapseSpaces(isSpace, s) == s
    decreases |s|
  {
    if |s| > 0 {
      var t := s[1..];
      assert forall i :: 0 <= i < |t| && isSpace(t[i]) ==> t[i] == ' ' by {
        forall i | 0 <= i < |t| && isSpace(t[i]) ensures t[i] == ' ' { assert t[i] == s[i + 1]; }
      }
      assert forall i :: 0 <= i < |t| - 1 ==> !isSpace(t[i]) || !isSpace(t[i + 1]) by {
        forall i | 0 <= i < |t| - 1 ensures !isSpace(t[i]) || !isSpace(t[i + 1]) {
          assert t[i] == s[i + 1] && t[i + 1] == s[i + 2];
        }
      }
      CollapseKeepsSingle(isSpace, t);
      if isSpace(s[0]) {
        assert LeadingSpaces(isSpace, s) == 1 by {
          assert |t| == 0 || !isSpace(t[0]) by {
            if |t| > 0 { assert t[0] == s[1]; }
          }
        }
        CollapseSpaceHead(isSpace, s);
      } else {
        CollapseCharHead(isSpace, s);
      }
      Uncons(s);
    }
  }

  /** A non-empty sequence is its first element followed by the rest. */
  lemma Uncons<T>(s: seq<T>)
    requires s != []
    ensures [s[0]] + s[1..] == s
  {
  }

  /** Collapsing is idempotent: the collapsed subject is collapsed already. */
  lemma CollapseIdempotent(isSpace: char -> bool, s: string)
    requires isSpace(' ')
    ensures CollapseSpaces(isSpace, CollapseSpaces(isSpace, s)) == CollapseSpaces(isSpace, s)
  {
    CollapseFixedPoint(isSpace, CollapseSpaces(isSpace, s));
  }

  /** Stripping removes only whitespace: the non-whitespace text is unchanged. */
  lemma StripKeepsText(isSpace: char -> bool, s: string)
    ensures NonSpace(isSpace, Strip(isSpace, s)) == NonSpace(isSpace, s)
  {
    var i := LeadingSpaces(isSpace, s);
    var t := s[i..];
    var j := TrailingSpaces(isSpace, t);
    NonSpacePrefix(isSpace, s, i);
    NonSpaceSuffix(isSpace, t, j);
  }

  /** Dropping a whitespace-only suffix does not change the non-whitespace text. */
  lemma {:induction false} NonSpaceSuffix(isSpace: char -> bool, s: string, k: nat)
    requires k <= |s|
    requires forall i :: |s| - k <= i < |s| ==> isSpace(s[i])
    ensures NonSpace(isSpace, s) == NonSpace(isSpace, s[..|s| - k])
    decreases |s|
  {
    if k == 0 {
      assert s[..|s|] == s;
    } else {
      if |s| == k {
        NonSpaceAll(isSpace, s);
        assert s[..0] == "";
      } else {
        var t := s[1..];
        assert forall i :: |t| - k <= i < |t| ==> isSpace(t[i]) by {
          forall i | |t| - k <= i < |t| ensures isSpace(t[i]) { assert t[i] == s[i + 1]; }
        }
        NonSpaceSuffix(isSpace, t, k);
        var u := s[..|s| - k];
        assert t[..|t| - k] == u[1..];
        assert u[0] == s[0];
        calc {
          NonSpace(isSpace, s);
          (if isSpace(s[0]) then "" else [s[0]]) + NonSpace(isSpace, t);
          (if isSpace(s[0]) then "" else [s[0]]) + NonSpace(isSpace, u[1..]);
          NonSpace(isSpace, u);
        }
      }
    }
  }

  /** A whitespace-only text has no non-whitespace text. */
  lemma {:induction false} NonSpaceAll(isSpace: char -> bool, s: string)
    requires forall i :: 0 <= i < |s| ==> isSpace(s[i])
    ensures NonSpace(isSpace, s) == ""
    decreases |s|
  {
    if |s| > 0 {
      NonSpaceAll(isSpace, s[1..]);
    }
  }
}
