/** String helpers the parsers rely on: trimming, splitting on a character, joining,
    deleting a character and lower-casing. */
module Text {

  /** The code points ECMAScript's `String.prototype.trim` removes: its WhiteSpace
      set (including the byte-order mark U+FEFF and the Unicode space separators)
      and its LineTerminator set. */
  predicate IsSpace(c: char) {
    || c == '\t' || c == '\n' || c == '\U{000B}' || c == '\U{000C}' || c == '\r' || c == ' '
    || c == '\U{00A0}' || c == '\U{1680}' || ('\U{2000}' <= c <= '\U{200A}')
    || c == '\U{2028}' || c == '\U{2029}' || c == '\U{202F}' || c == '\U{205F}'
    || c == '\U{3000}' || c == '\U{FEFF}'
  }

  predicate AllSpace(s: string) {
    forall i :: 0 <= i < |s| ==> IsSpace(s[i])
  }

  /** `s` without its leading white space. */
  function TrimStart(s: string): (r: string)
    ensures |r| <= |s| && r == s[|s| - |r|..]
    ensures AllSpace(s[..|s| - |r|])
    ensures r == [] || !IsSpace(r[0])
  {
    if s != [] && IsSpace(s[0]) then
      var r := TrimStart(s[1..]);
      DropOneMoreSpace(s, r);
      r
    else
      s
  }

  /** A suffix of `s[1..]` after white space is a suffix of `s` after white space, when
      `s` starts with white space. */
  lemma DropOneMoreSpace(s: string, r: string)
    requires s != [] && IsSpace(s[0])
    requires |r| <= |s| - 1 && r == s[1..][|s| - 1 - |r|..] && AllSpace(s[1..][..|s| - 1 - |r|])
    ensures r == s[|s| - |r|..] && AllSpace(s[..|s| - |r|])
  {
    var k := |s| - |r|;
    assert s[1..][k - 1..] == s[k..];
    forall i | 0 < i < k ensures IsSpace(s[i]) {
      assert s[i] == s[1..][..k - 1][i - 1];
    }
  }

  /** Trimming the front leaves nothing exactly when everything is white space. */
  lemma {:induction false} TrimStartEmpty(s: string)
    ensures TrimStart(s) == [] <==> AllSpace(s)
  {
    if s != [] && IsSpace(s[0]) {
      TrimStartEmpty(s[1..]);
      assert forall i :: 1 <= i < |s| ==> s[i] == s[1..][i - 1];
    }
  }

  /** `s` without its trailing white space. */
  function TrimEnd(s: string): (r: string)
    ensures |r| <= |s| && r == s[..|r|]
    ensures AllSpace(s[|r|..])
    ensures r == [] || !IsSpace(r[|r| - 1])
    ensures AllSpace(r) <==> AllSpace(s)
  {
    if s != [] && IsSpace(s[|s| - 1]) then
      assert forall i :: 0 <= i < |s| - 1 ==> s[i] == s[..|s| - 1][i];
      TrimEnd(s[..|s| - 1])
    else
      s
  }

  /** `String.prototype.trim`: the slice of `s` left once white space is removed
      from both ends. */
  function Trim(s: string): (r: string)
    ensures exists a, b :: 0 <= a <= b <= |s| && r == s[a..b] && AllSpace(s[..a]) && AllSpace(s[b..])
    ensures r == [] || (!IsSpace(r[0]) && !IsSpace(r[|r| - 1]))
    ensures r == [] <==> AllSpace(s)
  {
    TrimSlice(s);
    TrimEnds(s);
    TrimEmpty(s);
    TrimStart(TrimEnd(s))
  }

  /** Trimming the end first and then the start leaves a slice between two all-space parts. */
  lemma TrimSlice(s: string)
    ensures var e := TrimEnd(s); var r := TrimStart(e);
      && 0 <= |e| - |r| <= |e| <= |s| && r == s[|e| - |r|..|e|]
      && AllSpace(s[..|e| - |r|]) && AllSpace(s[|e|..])
  {
    var e := TrimEnd(s);
    SuffixOfPrefix(s, e, TrimStart(e));
  }

  /** A white-space-preceded suffix of a prefix of `s` is a white-space-preceded slice of `s`. */
  lemma SuffixOfPrefix(s: string, e: string, r: string)
    requires |e| <= |s| && e == s[..|e|]
    requires |r| <= |e| && r == e[|e| - |r|..] && AllSpace(e[..|e| - |r|])
    ensures r == s[|e| - |r|..|e|] && AllSpace(s[..|e| - |r|])
  {
    assert e[|e| - |r|..] == s[|e| - |r|..|e|];
    assert s[..|e| - |r|] == e[..|e| - |r|];
  }

  /** Trimming both ends leaves no white space at either end. */
  lemma TrimEnds(s: string)
    ensures var r := TrimStart(TrimEnd(s));
      r == [] || (!IsSpace(r[0]) && !IsSpace(r[|r| - 1]))
  {
    var e := TrimEnd(s);
    var r := TrimStart(e);
    if r != [] {
      assert r[|r| - 1] == e[|e| - 1];
    }
  }

  /** Trimming both ends leaves nothing exactly when everything is white space. */
  lemma TrimEmpty(s: string)
    ensures TrimStart(TrimEnd(s)) == [] <==> AllSpace(s)
  {
    TrimStartEmpty(TrimEnd(s));
  }

  /** A trimmed string is its own trim. */
  lemma {:induction false} TrimTrimmed(s: string)
    requires s == [] || (!IsSpace(s[0]) && !IsSpace(s[|s| - 1]))
    ensures Trim(s) == s
  {
    if s != [] {
      assert TrimEnd(s) == s;
      assert TrimStart(s) == s;
    }
  }

  /** Trimming brings in no character. */
  lemma TrimAddsNothing(s: string, c: char)
    requires c !in s
    ensures c !in Trim(s)
  {
    var a, b :| 0 <= a <= b <= |s| && Trim(s) == s[a..b];
    forall i | 0 <= i < b - a ensures Trim(s)[i] != c {
      assert Trim(s)[i] == s[a + i];
    }
  }

  /** Trimming twice is trimming once. */
  lemma TrimIdempotent(s: string)
    ensures Trim(Trim(s)) == Trim(s)
  {
    var t := Trim(s);
    assert t == [] || (!IsSpace(t[0]) && !IsSpace(t[|t| - 1]));
    TrimTrimmed(t);
  }

  /** The pieces of `xs` with `sep` between consecutive ones: the inverse of `SplitOn`. */
  function Join(xs: seq<string>, sep: string): string {
    if |xs| == 0 then []
    else if |xs| == 1 then xs[0]
    else xs[0] + sep + Join(xs[1..], sep)
  }

  /** Joining pieces whose first piece is extended at the front extends the join at the front. */
  lemma {:induction false} JoinExtendHead(c: char, xs: seq<string>, sep: string)
    requires |xs| >= 1
    ensures Join([[c] + xs[0]] + xs[1..], sep) == [c] + Join(xs, sep)
  {
    var ys := [[c] + xs[0]] + xs[1..];
    assert ys[1..] == xs[1..];
  }

  /** A separator character occurs in a join once per boundary plus once per
      occurrence inside the pieces. */
  lemma {:induction false} JoinCount(xs: seq<string>, sep: string, c: char)
    requires |xs| >= 1
    ensures multiset(Join(xs, sep))[c] == multiset(xs[0])[c] + multiset(Join(xs[1..], sep))[c] + (if |xs| > 1 then multiset(sep)[c] else 0)
  {
    if |xs| > 1 {
      assert Join(xs, sep) == xs[0] + sep + Join(xs[1..], sep);
    } else {
      assert xs[1..] == [];
    }
  }

  /** `s.split(sep)` for a single-character separator: the maximal pieces of `s`
      between occurrences of `sep`, in order. */
  function SplitOn(s: string, sep: char): (r: seq<string>)
    ensures |r| >= 1
    ensures Join(r, [sep]) == s
    ensures forall k :: 0 <= k < |r| ==> sep !in r[k]
  {
    if s == [] then [[]]
    else
      var rest := SplitOn(s[1..], sep);
      if s[0] == sep then
        assert Join([[]] + rest, [sep]) == [] + [sep] + Join(rest, [sep]);
        [[]] + rest
      else
        JoinExtendHead(s[0], rest, [sep]);
        assert s == [s[0]] + s[1..];
        [[s[0]] + rest[0]] + rest[1..]
  }

  /** Splitting a join of separator-free pieces gives the pieces back. */
  lemma {:induction false} SplitJoin(xs: seq<string>, sep: char)
    requires |xs| >= 1
    requires forall k :: 0 <= k < |xs| ==> sep !in xs[k]
    ensures SplitOn(Join(xs, [sep]), sep) == xs
    decreases |Join(xs, [sep])|
  {
    var s := Join(xs, [sep]);
    if |xs| == 1 {
      if xs[0] != [] {
        var tail := [xs[0][1..]];
        assert xs[0] == [xs[0][0]] + xs[0][1..];
        assert xs[0][0] in xs[0];
        assert Join(tail, [sep]) == xs[0][1..];
        assert sep !in xs[0][1..] by {
          assert multiset(xs[0]) == multiset([xs[0][0]]) + multiset(xs[0][1..]);
        }
        SplitJoin(tail, sep);
        assert SplitOn(xs[0][1..], sep) == tail;
        assert s == xs[0];
      }
    } else if xs[0] == [] {
      assert s == [sep] + Join(xs[1..], [sep]);
      assert s[1..] == Join(xs[1..], [sep]);
      SplitJoin(xs[1..], sep);
      assert [[]] + xs[1..] == xs;
    } else {
      var ys := [xs[0][1..]] + xs[1..];
      assert xs[0] == [xs[0][0]] + xs[0][1..];
      assert xs[0][0] in xs[0];
      JoinExtendHead(xs[0][0], ys, [sep]);
      assert [[xs[0][0]] + ys[0]] + ys[1..] == xs;
      assert s == [xs[0][0]] + Join(ys, [sep]);
      assert s[1..] == Join(ys, [sep]);
      assert forall k :: 0 <= k < |ys| ==> sep !in ys[k] by {
        forall k | 0 <= k < |ys| ensures sep !in ys[k] {
          if k == 0 {
            assert multiset(xs[0]) == multiset([xs[0][0]]) + multiset(ys[0]);
          } else {
            assert ys[k] == xs[k];
          }
        }
      }
      SplitJoin(ys, sep);
    }
  }

  /** A split has one piece more than there are separators. */
  lemma {:induction false} SplitCount(s: string, sep: char)
    ensures |SplitOn(s, sep)| == 1 + multiset(s)[sep]
  {
    if s != [] {
      SplitCount(s[1..], sep);
      SplitStep(s, sep);
      CountStep(s, sep);
    }
  }

  lemma SplitStep(s: string, sep: char)
    requires s != []
    ensures |SplitOn(s, sep)| == |SplitOn(s[1..], sep)| + (if s[0] == sep then 1 else 0)
  {
  }

  lemma CountStep(s: string, c: char)
    requires s != []
    ensures multiset(s)[c] == multiset(s[1..])[c] + (if s[0] == c then 1 else 0)
  {
    assert s == [s[0]] + s[1..];
  }

  /** The characters of `s` other than `c`, in their order. */
  function Without(s: string, c: char): string {
    if s == [] then [] else (if s[0] == c then [] else [s[0]]) + Without(s[1..], c)
  }

  lemma {:induction false} WithoutCounts(s: string, c: char)
    ensures c !in Without(s, c)
    ensures forall d :: d != c ==> multiset(Without(s, c))[d] == multiset(s)[d]
    ensures |Without(s, c)| == |s| - multiset(s)[c]
  {
    if s != [] {
      var head := if s[0] == c then [] else [s[0]];
      WithoutCounts(s[1..], c);
      assert s == [s[0]] + s[1..];
      assert multiset(Without(s, c)) == multiset(head) + multiset(Without(s[1..], c));
    }
  }

  /** `s` with every occurrence of `c` deleted (`s.replace(/c/g, '')`). */
  function RemoveAll(s: string, c: char): (r: string)
    ensures c !in r
    ensures forall d :: d != c ==> multiset(r)[d] == multiset(s)[d]
    ensures |r| == |s| - multiset(s)[c]
    ensures |s| == 1 ==> r == (if s[0] == c then [] else s)
  {
    WithoutCounts(s, c);
    Without(s, c)
  }

  /** Deleting a character brings in no other. */
  lemma RemoveAllAddsNothing(s: string, c: char, d: char)
    requires d !in s
    ensures d !in RemoveAll(s, c)
  {
    WithoutCounts(s, c);
    assert multiset(s)[d] == 0;
  }

  /** Deleting a character that does not occur changes nothing. */
  lemma {:induction false} RemoveAbsent(s: string, c: char)
    requires c !in s
    ensures RemoveAll(s, c) == s
  {
    if s != [] {
      assert s == [s[0]] + s[1..];
      assert c !in s[1..] by {
        assert multiset(s) == multiset([s[0]]) + multiset(s[1..]);
      }
      RemoveAbsent(s[1..], c);
      assert s == [s[0]] + s[1..];
    }
  }

  /** Deletion works piece by piece and keeps the order of what remains: deleting from
      a concatenation concatenates the deletions. */
  lemma RemoveAllAppend(s: string, t: string, c: char)
    ensures RemoveAll(s + t, c) == RemoveAll(s, c) + RemoveAll(t, c)
  {
    WithoutAppend(s, t, c);
  }

  lemma {:induction false} WithoutAppend(s: string, t: string, c: char)
    ensures Without(s + t, c) == Without(s, c) + Without(t, c)
  {
    if s != [] {
      var head := if s[0] == c then [] else [s[0]];
      assert (s + t)[0] == s[0];
      assert (s + t)[1..] == s[1..] + t;
      WithoutAppend(s[1..], t, c);
      assert head + (Without(s[1..], c) + Without(t, c)) == (head + Without(s[1..], c)) + Without(t, c);
    } else {
      assert s + t == t;
    }
  }

  /** Lower-casing of one character, on the ASCII letters. */
  function LowerChar(c: char): (r: char)
    ensures 'A' <= c <= 'Z' ==> 'a' <= r <= 'z'
    ensures !('A' <= c <= 'Z') ==> r == c
  {
    if 'A' <= c <= 'Z' then (c as int - 'A' as int + 'a' as int) as char else c
  }

  /** `String.prototype.toLowerCase`, on the ASCII letters. */
  function LowerCase(s: string): (r: string)
    ensures |r| == |s|
    ensures forall i :: 0 <= i < |s| ==> r[i] == LowerChar(s[i])
  {
    if s == [] then [] else [LowerChar(s[0])] + LowerCase(s[1..])
  }

  /** A string free of ASCII capitals is lower-cased only by itself: lower-casing
      `s` yields such a `t` exactly when `s` is `t`. */
  lemma LowerCaseMatchesOnlyItself(s: string, t: string)
    requires forall i :: 0 <= i < |t| ==> !('A' <= t[i] <= 'z')
    ensures LowerCase(s) == t <==> s == t
  {
    if LowerCase(s) == t {
      forall i | 0 <= i < |s| ensures s[i] == t[i] {
        assert LowerCase(s)[i] == LowerChar(s[i]);
      }
    }
  }
}
