/** The Python string primitives the loader is built from: `str.strip()`,
    `str.split(",")`, `sep.join(xs)`, `str.rfind(pat)` and slicing `s[a:b]`. */
module PyText {

  /** Python's `str.isspace` for one character: the characters `str.strip()`
      (with no argument) removes. */
  predicate IsSpace(c: char) {
    || c == ' '
    || ('\t' <= c <= '\r')
    || ('\U{1c}' <= c <= '\U{1f}')
    || c == '\U{85}' || c == '\U{a0}' || c == '\U{1680}'
    || ('\U{2000}' <= c <= '\U{200a}')
    || c == '\U{2028}' || c == '\U{2029}' || c == '\U{202f}' || c == '\U{205f}' || c == '\U{3000}'
  }

  /** `r` is what remains of `s` once the first `a` characters and everything
      after `a + |r|` are cut off, and every character cut off satisfies
      `ws`. */
  predicate TrimmedAt(s: string, a: nat, r: string, ws: char -> bool) {
    && a + |r| <= |s|
    && r == s[a..a + |r|]
    && (forall i :: 0 <= i < a ==> ws(s[i]))
    && (forall i :: a + |r| <= i < |s| ==> ws(s[i]))
  }

  /** Cutting the characters `ws` accepts from both ends of `s`: `str.strip()`
      when `ws` is `IsSpace`, and the trimming `int()` and `float()` do with
      their own whitespace set. */
  function StripWith(s: string, ws: char -> bool): string
    decreases |s|
  {
    if |s| > 0 && ws(s[0]) then StripWith(s[1..], ws)
    else if |s| > 0 && ws(s[|s| - 1]) then StripWith(s[..|s| - 1], ws)
    else s
  }

  /** `s.strip()` */
  function Strip(s: string): string {
    StripWith(s, IsSpace)
  }

  /** Stripping cuts characters of the set from both ends, only those, and all
      of them: what remains neither starts nor ends with one. */
  lemma {:induction false} StripTrims(s: string, ws: char -> bool)
    ensures var r := StripWith(s, ws);
      r == [] || (!ws(r[0]) && !ws(r[|r| - 1]))
    ensures exists a: nat :: TrimmedAt(s, a, StripWith(s, ws), ws)
    decreases |s|
  {
    var r := StripWith(s, ws);
    if |s| > 0 && ws(s[0]) {
      StripTrims(s[1..], ws);
      var a: nat :| TrimmedAt(s[1..], a, r, ws);
      TrimmedAfterFront(s, a, r, ws);
    } else if |s| > 0 && ws(s[|s| - 1]) {
      StripTrims(s[..|s| - 1], ws);
      var a: nat :| TrimmedAt(s[..|s| - 1], a, r, ws);
      TrimmedBeforeBack(s, a, r, ws);
    } else {
      assert TrimmedAt(s, 0, r, ws);
    }
  }

  /** Cutting a leading character of the set first moves the cut one place. */
  lemma TrimmedAfterFront(s: string, a: nat, r: string, ws: char -> bool)
    requires |s| > 0 && ws(s[0]) && TrimmedAt(s[1..], a, r, ws)
    ensures TrimmedAt(s, a + 1, r, ws)
  {
    assert r == s[1..][a..a + |r|];
    forall i | 0 < i < a + 1 ensures ws(s[i]) {
      assert s[i] == s[1..][i - 1];
    }
    forall i | a + 1 + |r| <= i < |s| ensures ws(s[i]) {
      assert s[i] == s[1..][i - 1];
    }
  }

  /** Cutting a trailing character of the set first leaves the cut in place. */
  lemma TrimmedBeforeBack(s: string, a: nat, r: string, ws: char -> bool)
    requires |s| > 0 && ws(s[|s| - 1]) && TrimmedAt(s[..|s| - 1], a, r, ws)
    ensures TrimmedAt(s, a, r, ws)
  {
    assert r == s[..|s| - 1][a..a + |r|];
    forall i | 0 <= i < a ensures ws(s[i]) {
      assert s[i] == s[..|s| - 1][i];
    }
    forall i | a + |r| <= i < |s| - 1 ensures ws(s[i]) {
      assert s[i] == s[..|s| - 1][i];
    }
  }

  /** Text that neither starts nor ends with a character of the set is left
      alone. */
  lemma StripUntouched(s: string, ws: char -> bool)
    requires s == [] || (!ws(s[0]) && !ws(s[|s| - 1]))
    ensures StripWith(s, ws) == s
  {
  }

  /** Number of occurrences of `c` in `s`. */
  function Count(s: string, c: char): nat {
    multiset(s)[c]
  }

  /** `s.split(d)` for a one-character separator `d`: the pieces between
      consecutive separators, an empty piece wherever two are adjacent or one
      stands at either end. */
  function Split(s: string, d: char): (r: seq<string>)
    ensures |r| >= 1
    ensures forall i :: 0 <= i < |r| ==> d !in r[i]
    decreases |s|
  {
    if |s| == 0 then [""]
    else
      var rest := Split(s[1..], d);
      if s[0] == d then [""] + rest else [[s[0]] + rest[0]] + rest[1..]
  }

  /** There is one piece more than there are separators. */
  lemma {:induction false} SplitCount(s: string, d: char)
    ensures |Split(s, d)| == Count(s, d) + 1
    decreases |s|
  {
    if |s| > 0 {
      SplitCount(s[1..], d);
      assert s == [s[0]] + s[1..];
    }
  }

  /** `sep.join(xs)` */
  function Join(sep: string, xs: seq<string>): string
    decreases |xs|
  {
    if |xs| == 0 then ""
    else if |xs| == 1 then xs[0]
    else xs[0] + sep + Join(sep, xs[1..])
  }

  /** Joining a first piece in front of a non-empty join. */
  lemma JoinCons(sep: string, x: string, ys: seq<string>)
    requires |ys| >= 1
    ensures Join(sep, [x] + ys) == x + sep + Join(sep, ys)
  {
    assert ([x] + ys)[1..] == ys;
  }

  /** Every string of `xs` with `p` put in front of it. */
  function Prefixed(p: string, xs: seq<string>): (r: seq<string>)
    ensures |r| == |xs|
    ensures forall i :: 0 <= i < |xs| ==> r[i] == p + xs[i]
  {
    seq(|xs|, i requires 0 <= i < |xs| => p + xs[i])
  }

  /** No string of `xs` contains `d`. */
  predicate FreeOf(xs: seq<string>, d: char) {
    forall i :: 0 <= i < |xs| ==> d !in xs[i]
  }

  /** Splitting loses nothing: joining the pieces with the separator gives
      back the original text. */
  lemma {:induction false} JoinSplit(s: string, d: char)
    ensures Join([d], Split(s, d)) == s
    decreases |s|
  {
    if |s| > 0 {
      var rest := Split(s[1..], d);
      JoinSplit(s[1..], d);
      assert Join([d], rest) == s[1..];
      if s[0] == d {
        assert Split(s, d) == [""] + rest;
        assert ([""] + rest)[1..] == rest;
      } else {
        var r := Split(s, d);
        assert r == [[s[0]] + rest[0]] + rest[1..];
        assert r[1..] == rest[1..];
        if |rest| > 1 {
          assert Join([d], rest) == rest[0] + [d] + Join([d], rest[1..]);
        }
      }
    }
  }

  /** A piece free of the separator, followed by the separator, splits off as
      the first piece. */
  lemma {:induction false} SplitAfterPiece(a: string, b: string, d: char)
    requires d !in a
    ensures Split(a + [d] + b, d) == [a] + Split(b, d)
    decreases |a|
  {
    var s := a + [d] + b;
    if |a| == 0 {
      assert s[1..] == b;
    } else {
      assert s[1..] == a[1..] + [d] + b;
      SplitAfterPiece(a[1..], b, d);
      assert [a[0]] + a[1..] == a;
    }
  }

  /** A string free of the separator splits into itself. */
  lemma {:induction false} SplitWhole(a: string, d: char)
    requires d !in a
    ensures Split(a, d) == [a]
    decreases |a|
  {
    if |a| > 0 {
      SplitWhole(a[1..], d);
      assert [a[0]] + a[1..] == a;
    }
  }

  /** Joining pieces that are free of the separator and splitting again gives
      back the pieces. */
  lemma {:induction false} SplitJoin(xs: seq<string>, d: char)
    requires |xs| >= 1 && FreeOf(xs, d)
    ensures Split(Join([d], xs), d) == xs
    decreases |xs|
  {
    if |xs| == 1 {
      SplitWhole(xs[0], d);
    } else {
      assert d !in xs[0];
      SplitJoin(xs[1..], d);
      SplitAfterPiece(xs[0], Join([d], xs[1..]), d);
      assert [xs[0]] + xs[1..] == xs;
    }
  }

  /** `", ".join(ys)` read as a `","`-join: every piece but the first
      keeps the space in front of it. */
  lemma {:induction false} JoinCommaSpace(ys: seq<string>)
    requires |ys| >= 1
    ensures Join(",", Prefixed(" ", ys)) == " " + Join(", ", ys)
    decreases |ys|
  {
    var ps := Prefixed(" ", ys);
    if |ys| > 1 {
      var t := Join(", ", ys[1..]);
      JoinCommaSpace(ys[1..]);
      assert ps[1..] == Prefixed(" ", ys[1..]);
      assert Join(",", ps[1..]) == " " + t;
      assert Join(",", ps) == (" " + ys[0]) + "," + (" " + t);
      assert Join(", ", ys) == ys[0] + ", " + t;
      assert "," + " " == ", ";
      assert (" " + ys[0]) + "," + (" " + t) == " " + (ys[0] + ", " + t);
    }
  }

  /** `", ".join(xs)` is the `","`-join of the same pieces, each but the
      first with a space put in front. */
  lemma {:induction false} SpacedJoin(xs: seq<string>)
    requires |xs| >= 1
    ensures Join(", ", xs) == Join(",", [xs[0]] + Prefixed(" ", xs[1..]))
  {
    var ps := Prefixed(" ", xs[1..]);
    var ys := [xs[0]] + ps;
    if |xs| == 1 {
      assert ys == [xs[0]];
    } else {
      var tail := Join(", ", xs[1..]);
      JoinCommaSpace(xs[1..]);
      assert ys[1..] == ps;
      assert Join(",", ys) == xs[0] + "," + Join(",", ps);
      assert Join(", ", xs) == xs[0] + ", " + tail;
      assert "," + (" " + tail) == ", " + tail;
    }
  }

  /** Splitting a `", "`-join of comma-free pieces on `,` recovers the
      pieces, each but the first with its leading space. */
  lemma {:induction false} SplitCommaSpaceJoin(xs: seq<string>)
    requires |xs| >= 1 && FreeOf(xs, ',')
    ensures Split(Join(", ", xs), ',') == [xs[0]] + Prefixed(" ", xs[1..])
  {
    var ys := [xs[0]] + Prefixed(" ", xs[1..]);
    SpacedJoin(xs);
    forall i | 0 <= i < |ys| ensures ',' !in ys[i] {
      if i > 0 {
        assert ys[i] == " " + xs[i];
      }
    }
    SplitJoin(ys, ',');
  }

  /** `pat` occurs in `s` starting at index `k`. */
  predicate OccursAt(s: string, pat: string, k: int) {
    0 <= k && k + |pat| <= |s| && s[k..k + |pat|] == pat
  }

  /** `s.rfind(pat)`: the start of the last occurrence of `pat` in `s`, or -1
      when there is none. */
  function RFind(s: string, pat: string): (r: int)
    ensures r == -1 || OccursAt(s, pat, r)
    ensures forall k :: r < k ==> !OccursAt(s, pat, k)
  {
    LastAtOrBefore(s, pat, |s| - |pat|)
  }

  /** The last occurrence of `pat` starting at or before `k`, or -1. */
  function LastAtOrBefore(s: string, pat: string, k: int): (r: int)
    requires k + |pat| <= |s|
    ensures r == -1 || (r <= k && OccursAt(s, pat, r))
    ensures forall i :: r < i <= k ==> !OccursAt(s, pat, i)
    decreases k + 1
  {
    if k < 0 then -1
    else if s[k..k + |pat|] == pat then k
    else LastAtOrBefore(s, pat, k - 1)
  }

  /** Python's normalisation of one slice bound against a length `n`:
      negative bounds count from the end, then the bound is clamped to
      `[0, n]`. */
  function SliceBound(i: int, n: nat): (r: nat)
    ensures r <= n
    ensures 0 <= i <= n ==> r == i
    ensures i < 0 && 0 <= i + n ==> r == i + n
    ensures n < i ==> r == n
    ensures i + n < 0 ==> r == 0
  {
    if i < 0 then (if i + n < 0 then 0 else i + n)
    else if i > n then n
    else i
  }

  /** `s[start:stop]` */
  function Slice(s: string, start: int, stop: int): (r: string)
    ensures |r| <= |s|
  {
    var a := SliceBound(start, |s|);
    var b := SliceBound(stop, |s|);
    if a < b then s[a..b] else ""
  }
}
