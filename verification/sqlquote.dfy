/** SQL string literals: a value is written between single quotes with every
    single quote inside it doubled, `"'%s'" % v.replace("'", "''")`. */
module SqlQuote {

  const Q: char := '\''

  datatype Option<T> = None | Some(value: T)

  /** `v.replace("'", "''")` */
  function EscapeQuotes(v: string): (r: string)
    ensures |r| == |v| + multiset(v)[Q]
    decreases |v|
  {
    if |v| == 0 then ""
    else
      assert v == [v[0]] + v[1..];
      (if v[0] == Q then [Q, Q] else [v[0]]) + EscapeQuotes(v[1..])
  }

  /** The literal a CHAR cell becomes. */
  function Quote(v: string): (r: string)
    ensures |r| == |v| + 2 + multiset(v)[Q]
    ensures r[0] == Q && r[|r| - 1] == Q
  {
    [Q] + EscapeQuotes(v) + [Q]
  }

  /** Text in which every single quote belongs to a doubled pair: the inside of
      a well-formed literal. */
  predicate IsEscaped(s: string)
    decreases |s|
  {
    if |s| == 0 then true
    else if s[0] == Q then |s| >= 2 && s[1] == Q && IsEscaped(s[2..])
    else IsEscaped(s[1..])
  }

  /** Reading the inside of a literal: each doubled quote stands for one. */
  function Unescape(s: string): string
    decreases |s|
  {
    if |s| == 0 then ""
    else if |s| >= 2 && s[0] == Q && s[1] == Q then [Q] + Unescape(s[2..])
    else [s[0]] + Unescape(s[1..])
  }

  /** The value a well-formed literal stands for, or None for text that is not
      one well-formed literal. */
  function Unquote(s: string): Option<string> {
    if |s| >= 2 && s[0] == Q && s[|s| - 1] == Q && IsEscaped(s[1..|s| - 1])
    then Some(Unescape(s[1..|s| - 1]))
    else None
  }

  lemma {:induction false} EscapeIsEscaped(v: string)
    ensures IsEscaped(EscapeQuotes(v))
    decreases |v|
  {
    if |v| > 0 {
      var e := EscapeQuotes(v);
      EscapeIsEscaped(v[1..]);
      if v[0] == Q {
        assert e[2..] == EscapeQuotes(v[1..]);
      } else {
        assert e[1..] == EscapeQuotes(v[1..]);
      }
    }
  }

  lemma {:induction false} UnescapeEscape(v: string)
    ensures Unescape(EscapeQuotes(v)) == v
    decreases |v|
  {
    if |v| > 0 {
      var e := EscapeQuotes(v);
      UnescapeEscape(v[1..]);
      if v[0] == Q {
        assert e[2..] == EscapeQuotes(v[1..]);
      } else {
        assert e[1..] == EscapeQuotes(v[1..]);
      }
      assert [v[0]] + v[1..] == v;
    }
  }

  lemma {:induction false} EscapeUnescape(s: string)
    requires IsEscaped(s)
    ensures EscapeQuotes(Unescape(s)) == s
    decreases |s|
  {
    if |s| > 0 {
      if s[0] == Q {
        EscapeUnescape(s[2..]);
        EscapeUnescapePair(s);
      } else {
        EscapeUnescape(s[1..]);
        EscapeUnescapeOther(s);
      }
    }
  }

  /** A doubled quote in front reads as one quote and is escaped back into
      two. */
  lemma EscapeUnescapePair(s: string)
    requires |s| >= 2 && s[0] == Q && s[1] == Q
    requires EscapeQuotes(Unescape(s[2..])) == s[2..]
    ensures EscapeQuotes(Unescape(s)) == s
  {
    var u := Unescape(s[2..]);
    var w := [Q] + u;
    assert Unescape(s) == w;
    assert w[0] == Q && w[1..] == u;
    assert EscapeQuotes(w) == [Q, Q] + EscapeQuotes(u);
    assert s == [Q, Q] + s[2..];
  }

  /** Any other character in front reads as itself and is escaped back into
      itself. */
  lemma EscapeUnescapeOther(s: string)
    requires |s| >= 1 && s[0] != Q
    requires EscapeQuotes(Unescape(s[1..])) == s[1..]
    ensures EscapeQuotes(Unescape(s)) == s
  {
    var u := Unescape(s[1..]);
    assert Unescape(s) == [s[0]] + u;
    assert ([s[0]] + u)[1..] == u;
    assert EscapeQuotes([s[0]] + u) == [s[0]] + EscapeQuotes(u);
    assert s == [s[0]] + s[1..];
  }

  /** Reading back the literal of `v` gives `v`. */
  lemma QuoteRoundTrip(v: string)
    ensures Unquote(Quote(v)) == Some(v)
  {
    var r := Quote(v);
    assert r[1..|r| - 1] == EscapeQuotes(v);
    EscapeIsEscaped(v);
    UnescapeEscape(v);
  }

  /** Every well-formed literal is the quoting of exactly the value it reads
      back as, so quoting is a bijection onto well-formed literals. */
  lemma UnquoteRoundTrip(s: string, v: string)
    requires Unquote(s) == Some(v)
    ensures Quote(v) == s
  {
    EscapeUnescape(s[1..|s| - 1]);
    assert s == [Q] + s[1..|s| - 1] + [Q];
  }

  /** Quoting adds single quotes and nothing else: every other character
      occurs in the literal exactly as often as in the value. */
  lemma {:induction false} QuoteAddsOnlyQuotes(v: string, c: char)
    requires c != Q
    ensures multiset(Quote(v))[c] == multiset(v)[c]
    decreases |v|
  {
    EscapeAddsOnlyQuotes(v, c);
    assert Quote(v) == [Q] + EscapeQuotes(v) + [Q];
  }

  lemma {:induction false} EscapeAddsOnlyQuotes(v: string, c: char)
    requires c != Q
    ensures multiset(EscapeQuotes(v))[c] == multiset(v)[c]
    decreases |v|
  {
    if |v| > 0 {
      EscapeAddsOnlyQuotes(v[1..], c);
      var head := if v[0] == Q then [Q, Q] else [v[0]];
      assert EscapeQuotes(v) == head + EscapeQuotes(v[1..]);
      assert multiset(EscapeQuotes(v)) == multiset(head) + multiset(EscapeQuotes(v[1..]));
      assert v == [v[0]] + v[1..];
      assert multiset(v) == multiset([v[0]]) + multiset(v[1..]);
    }
  }
}
