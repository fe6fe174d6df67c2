/** The handful of JavaScript built-ins the decode pipeline leans on, with the
    semantics ECMA-262 gives them for the arguments the program passes:
    `Array.prototype.slice` and `indexOf`, `Math.max` over a spread list,
    and `String.prototype.split` with a one-character separator. */
module JsBuiltins {

  /** `Math.min(a, b)` and `Math.max(a, b)` on integers. */
  function Min(a: int, b: int): int { if a <= b then a else b }

  function Max(a: int, b: int): int { if a >= b then a else b }

  /** `s.slice(start, end)` for non-negative `start` and `end`: both bounds
      are clamped to the length, and an empty range gives an empty array. */
  function Slice<T>(s: seq<T>, start: nat, end: nat): (r: seq<T>)
    ensures |r| == if Min(end, |s|) <= Min(start, |s|) then 0 else Min(end, |s|) - start
    ensures forall i :: 0 <= i < |r| ==> r[i] == s[start + i]
  {
    var lo := Min(start, |s|);
    var hi := Min(end, |s|);
    if hi <= lo then [] else s[lo..hi]
  }

  /** `s.slice(start)`: everything from `start` on. */
  function SliceFrom<T>(s: seq<T>, start: nat): (r: seq<T>)
    ensures start <= |s| ==> r == s[start..]
    ensures start >= |s| ==> r == []
  {
    Slice(s, start, |s|)
  }

  /** Three consecutive slices at cut points `a <= b` put the array back together,
      whatever its length. */
  lemma SliceThree<T>(s: seq<T>, a: nat, b: nat)
    requires a <= b
    ensures Slice(s, 0, a) + Slice(s, a, b) + SliceFrom(s, b) == s
  {
    if |s| <= a {
      assert Slice(s, 0, a) == s;
    } else if |s| <= b {
      assert Slice(s, 0, a) + Slice(s, a, b) == s[..a] + s[a..];
      assert s[..a] + s[a..] == s;
    } else {
      assert s[..a] + s[a..b] + s[b..] == s;
    }
  }

  /** `s.indexOf(v)`: the first index holding `v`, or -1 when there is none. */
  function IndexOf<T(==)>(s: seq<T>, v: T): (r: int)
    ensures -1 <= r < |s|
    ensures r == -1 <==> v !in s
    ensures 0 <= r ==> s[r] == v && forall j :: 0 <= j < r ==> s[j] != v
  {
    if |s| == 0 then -1
    else if s[0] == v then 0
    else
      var k := IndexOf(s[1..], v);
      if k == -1 then -1 else k + 1
  }

  /** `Math.max(...s)` over a non-empty list of (non-NaN) numbers. */
  function MaxOf(s: seq<real>): (r: real)
    requires |s| > 0
    ensures r in s
    ensures forall i :: 0 <= i < |s| ==> s[i] <= r
  {
    if |s| == 1 then s[0]
    else
      var m := MaxOf(s[1..]);
      assert forall i :: 1 <= i < |s| ==> s[i] == s[1..][i - 1];
      if s[0] >= m then s[0] else m
  }

  /** `s.split(c)` for a one-character separator: the maximal runs between
      occurrences of `c`, in order. There is always at least one piece; a
      separator ends the current piece and starts an empty one. */
  function Split(s: string, c: char): (r: seq<string>)
    ensures |r| >= 1
    ensures forall i :: 0 <= i < |r| ==> c !in r[i]
    decreases |s|
  {
    if |s| == 0 then [""]
    else
      var rest := Split(s[1..], c);
      if s[0] == c then [""] + rest
      else [[s[0]] + rest[0]] + rest[1..]
  }

  /** `parts.join(c)`, the inverse of `Split`. */
  function Join(parts: seq<string>, c: char): string
    requires |parts| >= 1
  {
    if |parts| == 1 then parts[0] else parts[0] + [c] + Join(parts[1..], c)
  }

  /** Splitting loses nothing: joining the pieces with the separator gives the
      original string back. */
  lemma {:induction false} JoinSplit(s: string, c: char)
    ensures Join(Split(s, c), c) == s
    decreases |s|
  {
    if |s| > 0 {
      var rest := Split(s[1..], c);
      JoinSplit(s[1..], c);
      if s[0] == c {
        assert Split(s, c) == [""] + rest;
        assert Join([""] + rest, c) == [c] + s[1..] by {
          JoinCons("", rest, c);
          assert "" + [c] == [c];
        }
        assert [c] + s[1..] == s;
      } else {
        assert Split(s, c) == [[s[0]] + rest[0]] + rest[1..];
        assert Join([[s[0]] + rest[0]] + rest[1..], c) == [s[0]] + s[1..] by {
          JoinHead(s[0], rest, c);
        }
        assert [s[0]] + s[1..] == s;
      }
    }
  }

  /** One step of `Join`. */
  lemma JoinCons(a: string, rest: seq<string>, c: char)
    requires |rest| >= 1
    ensures Join([a] + rest, c) == a + [c] + Join(rest, c)
  {
    assert ([a] + rest)[1..] == rest;
  }

  /** A character put in front of the first piece comes out in front of
      the joined text. */
  lemma JoinHead(x: char, parts: seq<string>, c: char)
    requires |parts| >= 1
    ensures Join([[x] + parts[0]] + parts[1..], c) == [x] + Join(parts, c)
  {
    if |parts| > 1 {
      JoinCons([x] + parts[0], parts[1..], c);
      JoinCons(parts[0], parts[1..], c);
      assert [parts[0]] + parts[1..] == parts;
    }
  }

  /** The first piece of a split is the text before the first separator. */
  lemma {:induction false} SplitFirst(s: string, c: char)
    ensures c in s ==> Split(s, c)[0] == s[..IndexOf(s, c)]
    ensures c !in s ==> Split(s, c)[0] == s
    decreases |s|
  {
    if |s| > 0 && s[0] != c {
      SplitFirst(s[1..], c);
      if c in s {
        assert c in s[1..] by {
          var j :| 0 <= j < |s| && s[j] == c;
          assert s[1..][j - 1] == c;
        }
        assert [s[0]] + s[1..][..IndexOf(s[1..], c)] == s[..IndexOf(s, c)];
      } else {
        assert [s[0]] + s[1..] == s;
      }
    }
  }

  /** A split has a single piece exactly when the separator is absent, and
      that piece is then the whole string. */
  lemma {:induction false} SplitSingle(s: string, c: char)
    ensures |Split(s, c)| == 1 <==> c !in s
    ensures c !in s ==> Split(s, c) == [s]
    decreases |s|
  {
    if |s| > 0 {
      SplitSingle(s[1..], c);
      assert c in s <==> s[0] == c || c in s[1..] by {
        if c in s && s[0] != c {
          var j :| 0 <= j < |s| && s[j] == c;
          assert s[1..][j - 1] == c;
        }
      }
      assert [s[0]] + s[1..] == s;
    }
  }

  /** The last piece of a split is a separator-free suffix that is either the
      whole string or is preceded by the separator. */
  lemma {:induction false} SplitLast(s: string, c: char)
    ensures var t := Last(Split(s, c));
      |t| <= |s| && t == s[|s| - |t|..] && c !in t &&
      (|t| == |s| || s[|s| - |t| - 1] == c)
    decreases |s|
  {
    if |s| > 0 {
      var tail := s[1..];
      var rest := Split(tail, c);
      SplitLast(tail, c);
      SplitSingle(tail, c);
      var u := Last(rest);
      assert tail[|tail| - |u|..] == s[|s| - |u|..];
      if |u| < |tail| {
        assert s[|s| - |u| - 1] == tail[|tail| - |u| - 1];
      }
      if s[0] == c {
        LastOfCons("", rest);
      } else if |rest| > 1 {
        LastOfCons([s[0]] + rest[0], rest[1..]);
        assert u != tail;
      } else {
        assert rest == [tail];
        assert Split(s, c) == [[s[0]] + tail];
        assert [s[0]] + tail == s;
      }
    }
  }

  function Last<T>(s: seq<T>): T
    requires |s| >= 1
  {
    s[|s| - 1]
  }

  lemma LastOfCons<T>(a: T, rest: seq<T>)
    requires |rest| >= 1
    ensures Last([a] + rest) == Last(rest)
  {
  }

  /** A character absent from a suffix occurs at no position of that suffix. */
  lemma AbsentFromSuffix(s: string, k: nat, c: char)
    requires k <= |s| && c !in s[k..]
    ensures forall i :: k <= i < |s| ==> s[i] != c
  {
    assert forall i :: k <= i < |s| ==> s[i] == s[k..][i - k];
  }

  /** Hence the last piece of `p + [c] + f`, where `f` holds no `c`, is `f`. */
  lemma LastPieceAfterSeparator(p: string, c: char, f: string)
    requires c !in f
    ensures Last(Split(p + [c] + f, c)) == f
  {
    var s := p + [c] + f;
    SplitLast(s, c);
    var t := Last(Split(s, c));
    var k := |s| - |t|;
    AbsentFromSuffix(s, k, c);
    assert s[|p|] == c;
    assert f == s[|p| + 1..];
    AbsentFromSuffix(s, |p| + 1, c);
    assert k == |p| + 1;
  }
}
