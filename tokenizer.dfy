/** The free-text tokenizer of the manual-entry form: every newline becomes a
    comma, the text is split on commas, each piece is stripped of surrounding
    whitespace and blank pieces are dropped (app.py:141). */
module Tokenizer {

  /** The characters Python's `str.isspace()` accepts, which `str.strip()`
      removes from both ends of a string. */
  const Whitespace: set<char> :=
    {' ', '\t', '\n', '\U{b}', '\U{c}', '\r', '\U{1c}', '\U{1d}', '\U{1e}', '\U{1f}',
     '\U{85}', '\U{a0}', '\U{1680}',
     '\U{2000}', '\U{2001}', '\U{2002}', '\U{2003}', '\U{2004}', '\U{2005}',
     '\U{2006}', '\U{2007}', '\U{2008}', '\U{2009}', '\U{200a}',
     '\U{2028}', '\U{2029}', '\U{202f}', '\U{205f}', '\U{3000}'}

  predicate IsSpace(c: char) {
    c in Whitespace
  }

  predicate AllSpace(s: string) {
    forall i :: 0 <= i < |s| ==> IsSpace(s[i])
  }

  /** A delimiter of the free-text form: a comma or a newline. */
  predicate IsDelimiter(c: char) {
    c == ',' || c == '\n'
  }

  // ---------------------------------------------------------------------
  // Newlines become commas
  // ---------------------------------------------------------------------

  function NewlinesToCommas(s: string): (r: string)
    ensures |r| == |s|
    ensures '\n' !in r
    ensures forall i :: 0 <= i < |s| && s[i] != '\n' ==> r[i] == s[i]
    ensures forall i :: 0 <= i < |s| ==> (r[i] == ',' <==> IsDelimiter(s[i]))
  {
    seq(|s|, i requires 0 <= i < |s| => if s[i] == '\n' then ',' else s[i])
  }

  lemma NewlinesToCommasAppend(a: string, d: char, b: string)
    requires IsDelimiter(d)
    ensures NewlinesToCommas(a + [d] + b) == NewlinesToCommas(a) + [','] + NewlinesToCommas(b)
  {
    var l, r := NewlinesToCommas(a + [d] + b), NewlinesToCommas(a) + [','] + NewlinesToCommas(b);
    assert |l| == |r|;
    forall i | 0 <= i < |l| ensures l[i] == r[i] {
      if i < |a| {
        assert (a + [d] + b)[i] == a[i];
      } else if i > |a| {
        assert (a + [d] + b)[i] == b[i - |a| - 1];
      }
    }
  }

  // ---------------------------------------------------------------------
  // Splitting on a separator, and its inverse, joining
  // ---------------------------------------------------------------------

  /** Python's `s.split(sep)` for a one-character separator: the maximal runs
      between separators, always at least one piece (`"".split(",") == [""]`),
      and an empty piece between two adjacent separators. */
  function Split(s: string, sep: char): (pieces: seq<string>)
    ensures |pieces| >= 1
    decreases |s|
  {
    if s == [] then [[]]
    else
      var rest := Split(s[1..], sep);
      if s[0] == sep then [[]] + rest
      else [[s[0]] + rest[0]] + rest[1..]
  }

  /** Python's `sep.join(pieces)`. */
  function Join(pieces: seq<string>, sep: char): string
    requires |pieces| >= 1
  {
    if |pieces| == 1 then pieces[0] else pieces[0] + [sep] + Join(pieces[1..], sep)
  }

  /** The separator, and any character absent from the text, is absent
      from every piece. */
  lemma {:induction false} SplitAvoids(s: string, sep: char, ch: char)
    requires ch == sep || ch !in s
    ensures forall p :: p in Split(s, sep) ==> ch !in p
    decreases |s|
  {
    if s != [] {
      assert ch == sep || ch !in s[1..] by {
        forall c | c in s[1..] && ch != sep ensures c != ch {
          var k :| 0 <= k < |s[1..]| && s[1..][k] == c;
          assert s[k + 1] == c;
        }
      }
      SplitAvoids(s[1..], sep, ch);
      var rest := Split(s[1..], sep);
      if s[0] != sep {
        assert rest[0] in rest;
        assert forall p :: p in rest[1..] ==> p in rest;
        assert ch !in [s[0]] + rest[0];
      }
    }
  }

  /** One unfolding of Join on a list given as its head and a non-empty
      tail. */
  lemma JoinCons(x: string, rest: seq<string>, sep: char)
    requires |rest| >= 1
    ensures Join([x] + rest, sep) == x + [sep] + Join(rest, sep)
  {
    assert ([x] + rest)[1..] == rest;
  }

  /** A character put in front of the first piece ends up in front of the
      joined text. */
  lemma JoinExtendFirst(c: char, rest: seq<string>, sep: char)
    requires |rest| >= 1
    ensures Join([[c] + rest[0]] + rest[1..], sep) == [c] + Join(rest, sep)
  {
    var first := [c] + rest[0];
    if |rest| == 1 {
      assert [first] + rest[1..] == [first];
    } else {
      JoinCons(first, rest[1..], sep);
      var tail := Join(rest[1..], sep);
      assert first + [sep] + tail == [c] + (rest[0] + [sep] + tail);
    }
  }

  /** Joining the pieces of a split with the same separator gives the text back. */
  lemma {:induction false} JoinSplit(s: string, sep: char)
    ensures Join(Split(s, sep), sep) == s
    decreases |s|
  {
    if s != [] {
      var c, t := s[0], s[1..];
      assert s == [c] + t;
      SplitCons(c, t, sep);
      JoinSplit(t, sep);
      var rest := Split(t, sep);
      if c == sep {
        JoinCons([], rest, sep);
      } else {
        JoinExtendFirst(c, rest, sep);
      }
    }
  }

  /** A text without the separator is a single piece. */
  lemma {:induction false} SplitWithoutSeparator(s: string, sep: char)
    requires sep !in s
    ensures Split(s, sep) == [s]
    decreases |s|
  {
    if s != [] {
      assert sep !in s[1..] by {
        forall ch | ch in s[1..] ensures ch != sep {
          var k :| 0 <= k < |s[1..]| && s[1..][k] == ch;
          assert s[k + 1] == ch;
        }
      }
      SplitWithoutSeparator(s[1..], sep);
      assert [s[0]] + s[1..] == s;
    }
  }

  /** One unfolding of Split on a text given as its first character and the
      rest. */
  lemma SplitCons(c: char, t: string, sep: char)
    ensures var rest := Split(t, sep);
            Split([c] + t, sep) == if c == sep then [[]] + rest else [[c] + rest[0]] + rest[1..]
  {
    assert ([c] + t)[1..] == t;
  }

  /** Concatenation regrouped around a leading element. */
  lemma ConsAssociative<T>(x: T, p: seq<T>, q: seq<T>)
    ensures [x] + (p + q) == ([x] + p) + q
  {
  }

  /** The head and tail of a concatenation whose left part is not empty. */
  lemma HeadTailOfConcat<T>(p: seq<T>, q: seq<T>)
    requires |p| >= 1
    ensures (p + q)[0] == p[0] && (p + q)[1..] == p[1..] + q
  {
    assert (p + q)[1..] == p[1..] + q;
  }

  /** A non-empty sequence is its head in front of its tail, also inside a
      concatenation. */
  lemma Uncons<T>(a: seq<T>, d: T, b: seq<T>)
    requires |a| >= 1
    ensures a == [a[0]] + a[1..]
    ensures a + [d] + b == [a[0]] + (a[1..] + [d] + b)
  {
    assert a == [a[0]] + a[1..];
  }

  /** The inductive step of SplitAppend: a character in front of `t` joins
      the first piece on both sides. */
  lemma SplitAppendCons(c: char, t: string, sep: char, b: string)
    requires Split(t + [sep] + b, sep) == Split(t, sep) + Split(b, sep)
    ensures Split([c] + (t + [sep] + b), sep) == Split([c] + t, sep) + Split(b, sep)
  {
    SplitCons(c, t + [sep] + b, sep);
    SplitCons(c, t, sep);
    var ra, rb := Split(t, sep), Split(b, sep);
    if c == sep {
      ConsAssociative([], ra, rb);
    } else {
      HeadTailOfConcat(ra, rb);
      ConsAssociative([c] + ra[0], ra[1..], rb);
    }
  }

  /** Splitting at one occurrence of the separator splits the pieces there:
      the pieces of `a + sep + b` are the pieces of `a` followed by those of `b`. */
  lemma {:induction false} SplitAppend(a: string, sep: char, b: string)
    ensures Split(a + [sep] + b, sep) == Split(a, sep) + Split(b, sep)
    decreases |a|
  {
    if a == [] {
      assert a + [sep] + b == [sep] + b;
      SplitCons(sep, b, sep);
    } else {
      Uncons(a, sep, b);
      SplitAppend(a[1..], sep, b);
      SplitAppendCons(a[0], a[1..], sep, b);
    }
  }

  /** Splitting a join of separator-free pieces gives the pieces back. */
  lemma {:induction false} SplitJoin(pieces: seq<string>, sep: char)
    requires |pieces| >= 1
    requires forall p :: p in pieces ==> sep !in p
    ensures Split(Join(pieces, sep), sep) == pieces
    decreases |pieces|
  {
    SplitWithoutSeparator(pieces[0], sep);
    if |pieces| > 1 {
      assert pieces[0] in pieces;
      assert forall p :: p in pieces[1..] ==> p in pieces;
      SplitJoin(pieces[1..], sep);
      SplitAppend(pieces[0], sep, Join(pieces[1..], sep));
      assert [pieces[0]] + pieces[1..] == pieces;
    }
  }

  // ---------------------------------------------------------------------
  // Stripping surrounding whitespace
  // ---------------------------------------------------------------------

  /** `s.lstrip()`: drops the leading whitespace, keeps the rest. */
  function TrimStart(s: string): (r: string)
    ensures |r| <= |s|
    ensures r == s[|s| - |r|..]
    ensures forall i :: 0 <= i < |s| - |r| ==> IsSpace(s[i])
    ensures r != [] ==> !IsSpace(r[0])
  {
    if s != [] && IsSpace(s[0]) then
      var r := TrimStart(s[1..]);
      assert forall i :: 1 <= i < |s| ==> s[i] == s[1..][i - 1];
      r
    else s
  }

  /** `s.rstrip()`: drops the trailing whitespace, keeps the rest. */
  function TrimEnd(s: string): (r: string)
    ensures |r| <= |s|
    ensures r == s[..|r|]
    ensures forall i :: |r| <= i < |s| ==> IsSpace(s[i])
    ensures r != [] ==> !IsSpace(r[|r| - 1])
  {
    if s != [] && IsSpace(s[|s| - 1]) then TrimEnd(s[..|s| - 1]) else s
  }

  /** A token as the form produces it: non-empty, and neither beginning nor
      ending in whitespace. */
  predicate IsToken(t: string) {
    t != [] && !IsSpace(t[0]) && !IsSpace(t[|t| - 1])
  }

  /** `s.strip()`: what is left is empty or a token. */
  function Strip(s: string): (r: string)
    ensures r != [] ==> IsToken(r)
  {
    var t := TrimStart(s);
    var r := TrimEnd(t);
    assert r != [] ==> r[0] == t[0];
    r
  }

  /** Stripping removes everything exactly when the text is all whitespace. */
  lemma StripBlank(s: string)
    ensures Strip(s) == [] <==> AllSpace(s)
  {
    var t := TrimStart(s);
    var k := |s| - |t|;
    if Strip(s) == [] {
      assert t == [];
    } else {
      assert t[0] == s[k];
    }
  }

  /** What occurs in a prefix occurs in the whole. */
  lemma InPrefix<T>(s: seq<T>, n: int, x: T)
    requires 0 <= n <= |s| && x in s[..n]
    ensures x in s
  {
    var k :| 0 <= k < n && s[..n][k] == x;
    assert s[k] == x;
  }

  /** What occurs in a suffix occurs in the whole. */
  lemma InSuffix<T>(s: seq<T>, n: int, x: T)
    requires 0 <= n <= |s| && x in s[n..]
    ensures x in s
  {
    var k :| 0 <= k < |s| - n && s[n..][k] == x;
    assert s[n + k] == x;
  }

  /** Every character of the stripped text occurs in the text. */
  lemma StripChars(s: string, ch: char)
    requires ch in Strip(s)
    ensures ch in s
  {
    var t := TrimStart(s);
    var r := TrimEnd(t);
    InPrefix(t, |r|, ch);
    InSuffix(s, |s| - |t|, ch);
  }

  lemma {:induction false} TrimStartPadded(a: string, s: string)
    requires AllSpace(a)
    requires s != [] ==> !IsSpace(s[0])
    ensures TrimStart(a + s) == s
    decreases |a|
  {
    if a == [] {
      assert a + s == s;
    } else {
      assert (a + s)[0] == a[0];
      assert (a + s)[1..] == a[1..] + s;
      TrimStartPadded(a[1..], s);
    }
  }

  lemma {:induction false} TrimEndPadded(s: string, b: string)
    requires AllSpace(b)
    requires s != [] ==> !IsSpace(s[|s| - 1])
    ensures TrimEnd(s + b) == s
    decreases |b|
  {
    if b == [] {
      assert s + b == s;
    } else {
      var n := |s + b|;
      assert (s + b)[n - 1] == b[|b| - 1];
      assert (s + b)[..n - 1] == s + b[..|b| - 1];
      TrimEndPadded(s, b[..|b| - 1]);
    }
  }

  /** Whitespace around a text that neither begins nor ends in whitespace is
      exactly what stripping removes. */
  lemma StripPadded(a: string, s: string, b: string)
    requires AllSpace(a) && AllSpace(b)
    requires s != [] ==> !IsSpace(s[0]) && !IsSpace(s[|s| - 1])
    ensures Strip(a + s + b) == s
  {
    assert a + s + b == a + (s + b);
    if s == [] {
      assert AllSpace(a + b) by {
        forall i | 0 <= i < |a + b| ensures IsSpace((a + b)[i]) {
          if i < |a| { assert (a + b)[i] == a[i]; } else { assert (a + b)[i] == b[i - |a|]; }
        }
      }
      assert a + b == (a + b) + [];
      TrimStartPadded(a + b, []);
    } else {
      assert (s + b)[0] == s[0];
      TrimStartPadded(a, s + b);
      TrimEndPadded(s, b);
    }
  }

  /** Stripping twice is stripping once. */
  lemma StripIdempotent(s: string)
    ensures Strip(Strip(s)) == Strip(s)
  {
    var r := Strip(s);
    TrimStartPadded([], r);
    assert [] + r == r;
    TrimEndPadded(r, []);
    assert r + [] == r;
  }

  // ---------------------------------------------------------------------
  // Stripping the pieces and keeping the non-blank ones
  // ---------------------------------------------------------------------

  /** The stripped pieces that are not blank, in the order of the pieces. */
  function KeepNonBlank(pieces: seq<string>): (tokens: seq<string>)
    ensures |tokens| <= |pieces|
    ensures forall t :: t in tokens ==> IsToken(t)
  {
    if pieces == [] then []
    else
      var t := Strip(pieces[0]);
      (if t == [] then [] else [t]) + KeepNonBlank(pieces[1..])
  }

  /** A character absent from every piece is absent from every token. */
  lemma {:induction false} KeepNonBlankAvoids(pieces: seq<string>, ch: char)
    requires forall p :: p in pieces ==> ch !in p
    ensures forall t :: t in KeepNonBlank(pieces) ==> ch !in t
    decreases |pieces|
  {
    if pieces != [] {
      assert pieces[0] in pieces;
      if ch in Strip(pieces[0]) { StripChars(pieces[0], ch); }
      assert forall p :: p in pieces[1..] ==> p in pieces;
      KeepNonBlankAvoids(pieces[1..], ch);
    }
  }

  lemma {:induction false} KeepNonBlankAppend(p: seq<string>, q: seq<string>)
    ensures KeepNonBlank(p + q) == KeepNonBlank(p) + KeepNonBlank(q)
    decreases |p|
  {
    if p == [] {
      assert p + q == q;
    } else {
      assert (p + q)[0] == p[0];
      assert (p + q)[1..] == p[1..] + q;
      KeepNonBlankAppend(p[1..], q);
      var head := if Strip(p[0]) == [] then [] else [Strip(p[0])];
      assert KeepNonBlank(p + q) == head + (KeepNonBlank(p[1..]) + KeepNonBlank(q));
    }
  }

  /** The tokens of the free-text form (app.py:141). */
  function Tokens(text: string): (tokens: seq<string>)
    ensures forall t :: t in tokens ==> IsToken(t) && ',' !in t && '\n' !in t
  {
    var pieces := Split(NewlinesToCommas(text), ',');
    SplitAvoids(NewlinesToCommas(text), ',', ',');
    SplitAvoids(NewlinesToCommas(text), ',', '\n');
    KeepNonBlankAvoids(pieces, ',');
    KeepNonBlankAvoids(pieces, '\n');
    KeepNonBlank(pieces)
  }

  /** Tokens respect the delimiters: the tokens of `a`, a comma or newline,
      then `b`, are the tokens of `a` followed by the tokens of `b`. Together
      with TokensOfField this pins down the tokens and their order. */
  lemma TokensAppend(a: string, d: char, b: string)
    requires IsDelimiter(d)
    ensures Tokens(a + [d] + b) == Tokens(a) + Tokens(b)
  {
    NewlinesToCommasAppend(a, d, b);
    SplitAppend(NewlinesToCommas(a), ',', NewlinesToCommas(b));
    KeepNonBlankAppend(Split(NewlinesToCommas(a), ','), Split(NewlinesToCommas(b), ','));
  }

  /** A text without delimiters yields its stripped self as one token, or no
      token when it is all whitespace. */
  lemma TokensOfField(s: string)
    requires forall i :: 0 <= i < |s| ==> !IsDelimiter(s[i])
    ensures Tokens(s) == if AllSpace(s) then [] else [Strip(s)]
  {
    assert NewlinesToCommas(s) == s;
    assert ',' !in s;
    SplitWithoutSeparator(s, ',');
    StripBlank(s);
  }

  /** A field with no delimiter, padded by whitespace around a text that
      neither begins nor ends in whitespace, is exactly one token: that text. */
  lemma TokensOfPaddedField(a: string, s: string, b: string)
    requires AllSpace(a) && AllSpace(b)
    requires s != [] && !IsSpace(s[0]) && !IsSpace(s[|s| - 1])
    requires forall i :: 0 <= i < |a + s + b| ==> !IsDelimiter((a + s + b)[i])
    ensures Tokens(a + s + b) == [s]
  {
    TokensOfField(a + s + b);
    StripPadded(a, s, b);
    assert (a + s + b)[|a|] == s[0];
  }
}
