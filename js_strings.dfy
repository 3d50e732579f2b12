/** The JavaScript string built-ins the core relies on: `trim`, `split` with a
    one-character separator and `join`. A Dafny `char` stands for one UTF-16
    code unit of a JavaScript string, so `|s|` is JavaScript's `s.length`. */
module JsStrings {

  datatype Option<+T> = None | Some(value: T)

  /** `value || fallback` for a value that is a string or absent (`undefined`
      or `null`): the empty string is falsy too, so it also gives `fallback`. */
  function OrElse(value: Option<string>, fallback: string): (r: string)
    ensures r == fallback || (value == Some(r) && r != "")
    ensures value.Some? && value.value != "" ==> r == value.value
  {
    if value.Some? && value.value != "" then value.value else fallback
  }

  /** `s.startsWith(prefix)`. */
  predicate StartsWith(s: string, prefix: string) {
    |prefix| <= |s| && s[..|prefix|] == prefix
  }

  /** A prefix of a prefix is a prefix. */
  lemma StartsWithTrans(s: string, a: string, b: string)
    requires StartsWith(s, a) && StartsWith(a, b)
    ensures StartsWith(s, b)
  {
    assert s[..|b|] == s[..|a|][..|b|];
  }

  /** A character `String.prototype.trim` removes: an ECMAScript WhiteSpace
      (tab, vertical tab, form feed, space, no-break space, byte order mark and
      the Zs category) or LineTerminator (LF, CR, LS, PS) code unit. */
  predicate IsWhitespace(c: char) {
    var n := c as int;
    n == 0x09 || n == 0x0A || n == 0x0B || n == 0x0C || n == 0x0D || n == 0x20
    || n == 0xA0 || n == 0x1680 || (0x2000 <= n <= 0x200A) || n == 0x2028
    || n == 0x2029 || n == 0x202F || n == 0x205F || n == 0x3000 || n == 0xFEFF
  }

  predicate AllWhitespace(s: string) {
    forall i :: 0 <= i < |s| ==> IsWhitespace(s[i])
  }

  /** Neither end of `s` is whitespace. */
  predicate IsTrimmed(s: string) {
    s == [] || (!IsWhitespace(s[0]) && !IsWhitespace(s[|s| - 1]))
  }

  /** Drops the leading whitespace. */
  function TrimStart(s: string): (r: string)
    ensures |r| <= |s|
  {
    if s != [] && IsWhitespace(s[0]) then TrimStart(s[1..]) else s
  }

  /** Drops the trailing whitespace. */
  function TrimEnd(s: string): (r: string)
    ensures |r| <= |s|
  {
    if s != [] && IsWhitespace(s[|s| - 1]) then TrimEnd(s[..|s| - 1]) else s
  }

  /** What `TrimStart` leaves is a suffix of `s` after a whitespace prefix. */
  lemma {:induction false} TrimStartShape(s: string)
    ensures var r := TrimStart(s);
      r == s[|s| - |r|..] && AllWhitespace(s[..|s| - |r|]) && (r == [] || !IsWhitespace(r[0]))
  {
    if s != [] && IsWhitespace(s[0]) {
      TrimStartShape(s[1..]);
      var r := TrimStart(s[1..]);
      assert s[..|s| - |r|] == [s[0]] + s[1..][..|s| - 1 - |r|];
    }
  }

  /** What `TrimEnd` leaves is a prefix of `s` before a whitespace suffix. */
  lemma {:induction false} TrimEndShape(s: string)
    ensures var r := TrimEnd(s);
      r == s[..|r|] && AllWhitespace(s[|r|..]) && (r == [] || !IsWhitespace(r[|r| - 1]))
  {
    if s != [] && IsWhitespace(s[|s| - 1]) {
      TrimEndShape(s[..|s| - 1]);
      var r := TrimEnd(s[..|s| - 1]);
      assert s[|r|..] == s[..|s| - 1][|r|..] + [s[|s| - 1]];
    }
  }

  /** `String.prototype.trim`: never longer than `s`, and neither end of the
      result is whitespace. */
  function Trim(s: string): (r: string)
    ensures |r| <= |s|
    ensures IsTrimmed(r)
  {
    TrimStartShape(s);
    TrimEndShape(TrimStart(s));
    InfixShape(s, TrimStart(s), TrimEnd(TrimStart(s)));
    TrimEnd(TrimStart(s))
  }

  /** The result of `trim` is the infix of `s` left once the whitespace at both
      ends is removed, and neither of its ends is whitespace. */
  lemma TrimShape(s: string)
    ensures var r, k := Trim(s), |s| - |TrimStart(s)|;
      IsTrimmed(r) && k + |r| <= |s| && r == s[k..k + |r|]
      && AllWhitespace(s[..k]) && AllWhitespace(s[k + |r|..])
  {
    TrimStartShape(s);
    TrimEndShape(TrimStart(s));
    InfixShape(s, TrimStart(s), Trim(s));
  }

  /** A whitespace-free end of a suffix, then of its prefix, makes a trimmed
      infix with whitespace on both sides. */
  lemma InfixShape(s: string, t: string, r: string)
    requires |t| <= |s| && t == s[|s| - |t|..] && AllWhitespace(s[..|s| - |t|]) && (t == [] || !IsWhitespace(t[0]))
    requires |r| <= |t| && r == t[..|r|] && AllWhitespace(t[|r|..]) && (r == [] || !IsWhitespace(r[|r| - 1]))
    ensures var k := |s| - |t|;
      IsTrimmed(r) && k + |r| <= |s| && r == s[k..k + |r|]
      && AllWhitespace(s[..k]) && AllWhitespace(s[k + |r|..])
  {
    var k := |s| - |t|;
    assert s[k..k + |r|] == r;
    assert s[k + |r|..] == t[|r|..];
    if r != [] {
      assert r[0] == t[0];
    }
  }

  /** Trimming changes a string exactly when one of its ends is whitespace. */
  lemma TrimFixedPoint(s: string)
    ensures Trim(s) == s <==> IsTrimmed(s)
  {
    TrimShape(s);
    if IsTrimmed(s) {
      assert TrimStart(s) == s;
      assert TrimEnd(s) == s;
    }
  }

  /** `trim` is idempotent. */
  lemma TrimIdempotent(s: string)
    ensures Trim(Trim(s)) == Trim(s)
  {
    TrimShape(s);
    TrimFixedPoint(Trim(s));
  }

  /** A string that ends in whitespace loses at least that code unit. */
  lemma TrimDropsTrailing(s: string)
    requires s != [] && IsWhitespace(s[|s| - 1])
    ensures |Trim(s)| < |s|
  {
    TrimShape(s);
  }

  /** Trimming never introduces a character. */
  lemma TrimKeeps(s: string, c: char)
    requires c !in s
    ensures c !in Trim(s)
  {
    TrimShape(s);
  }

  /** Appending one whitespace code unit does not change the trimmed result. */
  lemma {:induction false} TrimAppendWhitespace(s: string, c: char)
    requires IsWhitespace(c)
    ensures Trim(s + [c]) == Trim(s)
  {
    TrimStartAppend(s, [c]);
    if TrimStart(s) == [] {
      assert TrimStart(s + [c]) == TrimStart([c]) == [];
    } else {
      var t := TrimStart(s);
      assert TrimStart(s + [c]) == t + [c];
      assert (t + [c])[..|t + [c]| - 1] == t;
    }
  }

  /** Leading whitespace is removed the same way whatever follows, unless the
      whole of `s` is whitespace. */
  lemma {:induction false} TrimStartAppend(s: string, u: string)
    ensures TrimStart(s) != [] ==> TrimStart(s + u) == TrimStart(s) + u
    ensures TrimStart(s) == [] ==> TrimStart(s + u) == TrimStart(u)
  {
    if s == [] {
      assert s + u == u;
    } else if IsWhitespace(s[0]) {
      TrimStartAppend(s[1..], u);
      assert (s + u)[1..] == s[1..] + u;
    }
  }

  /** `s.split(sep)` for a one-character separator: the pieces between
      consecutive separators, empty pieces included, always at least one. */
  function SplitOn(s: string, sep: char): (r: seq<string>)
    ensures |r| >= 1
    ensures forall i :: 0 <= i < |r| ==> sep !in r[i]
  {
    if s == [] then
      [[]]
    else
      var rest := SplitOn(s[1..], sep);
      if s[0] == sep then [[]] + rest else [[s[0]] + rest[0]] + rest[1..]
  }

  /** Trimming a whitespace-only string leaves nothing. */
  lemma WhitespaceTrimsAway(s: string)
    requires AllWhitespace(s)
    ensures TrimStart(s) == [] && Trim(s) == []
  {
    TrimStartShape(s);
  }

  /** The pieces of a whitespace-only string are whitespace-only. */
  lemma {:induction false} SplitOnWhitespace(s: string, sep: char)
    requires AllWhitespace(s)
    ensures forall i :: 0 <= i < |SplitOn(s, sep)| ==> AllWhitespace(SplitOn(s, sep)[i])
  {
    if s != [] {
      SplitOnWhitespace(s[1..], sep);
      var rest := SplitOn(s[1..], sep);
      assert AllWhitespace([s[0]] + rest[0]) by {
        assert forall k :: 0 < k < |[s[0]] + rest[0]| ==> ([s[0]] + rest[0])[k] == rest[0][k - 1];
      }
    }
  }

  /** Every character of a piece comes from the string. */
  lemma {:induction false} SplitOnKeeps(s: string, sep: char, c: char)
    requires c !in s
    ensures forall i :: 0 <= i < |SplitOn(s, sep)| ==> c !in SplitOn(s, sep)[i]
  {
    if s != [] {
      SplitOnKeeps(s[1..], sep, c);
      assert c !in s[1..];
    }
  }

  /** `parts.join(sep)` for a one-character separator: the join begins with
      the first part, and for separator-free parts the separator occurs in it
      exactly when there are at least two parts. */
  function Join(parts: seq<string>, sep: char): (r: string)
    ensures parts != [] ==> StartsWith(r, parts[0])
    ensures (forall i :: 0 <= i < |parts| ==> sep !in parts[i]) ==> (sep in r <==> |parts| >= 2)
  {
    if |parts| == 0 then []
    else if |parts| == 1 then parts[0]
    else parts[0] + [sep] + Join(parts[1..], sep)
  }

  /** Joining the pieces of a split gives the string back. */
  lemma {:induction false} JoinSplit(s: string, sep: char)
    ensures Join(SplitOn(s, sep), sep) == s
  {
    if s != [] {
      JoinSplit(s[1..], sep);
      var rest := SplitOn(s[1..], sep);
      if s[0] == sep {
        assert ([[]] + rest)[1..] == rest;
      } else if |rest| > 1 {
        assert ([[s[0]] + rest[0]] + rest[1..])[1..] == rest[1..];
        assert Join(rest, sep) == rest[0] + [sep] + Join(rest[1..], sep);
      }
    }
  }

  /** Splitting a join of separator-free pieces gives the pieces back. */
  lemma {:induction false} SplitJoin(parts: seq<string>, sep: char)
    requires |parts| >= 1
    requires forall i :: 0 <= i < |parts| ==> sep !in parts[i]
    ensures SplitOn(Join(parts, sep), sep) == parts
  {
    if |parts| == 1 {
      SplitPlain(parts[0], sep);
    } else {
      SplitJoin(parts[1..], sep);
      SplitAfterPiece(parts[0], Join(parts[1..], sep), sep);
      assert [parts[0]] + parts[1..] == parts;
    }
  }

  /** A separator-free string splits into itself. */
  lemma {:induction false} SplitPlain(s: string, sep: char)
    requires sep !in s
    ensures SplitOn(s, sep) == [s]
  {
    if s != [] {
      SplitPlain(s[1..], sep);
      assert [s[0]] + s[1..] == s;
    }
  }

  /** The first piece of `p + [sep] + u` is `p`; the rest is the split of `u`. */
  lemma {:induction false} SplitAfterPiece(p: string, u: string, sep: char)
    requires sep !in p
    ensures SplitOn(p + [sep] + u, sep) == [p] + SplitOn(u, sep)
  {
    if p == [] {
      assert ([] + [sep] + u)[1..] == u;
    } else {
      SplitAfterPiece(p[1..], u, sep);
      assert (p + [sep] + u)[1..] == p[1..] + [sep] + u;
      assert [p[0]] + p[1..] == p;
    }
  }

  /** Joining two non-empty lists puts one separator between them. */
  lemma {:induction false} JoinAppend(a: seq<string>, b: seq<string>, sep: char)
    requires a != [] && b != []
    ensures Join(a + b, sep) == Join(a, sep) + [sep] + Join(b, sep)
  {
    if |a| == 1 {
      assert (a + b)[1..] == b;
    } else {
      JoinAppend(a[1..], b, sep);
      assert (a + b)[1..] == a[1..] + b;
    }
  }
}
