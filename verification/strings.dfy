/** Text primitives with Python's semantics: `str.strip()`, `str.replace(c, "")`,
    `str.split(sep)` and `str(int)`. Strings are sequences of Unicode code points. */
module Strings {

  /** The characters for which Python's `str.isspace()` holds; exactly the ones
      `str.strip()` (and pandas' `.str.strip()`) remove with no argument. */
  predicate IsSpace(c: char) {
    var n := c as int;
    || n in {9, 10, 11, 12, 13, 28, 29, 30, 31, 32, 0x85, 0xA0, 0x1680, 0x2028, 0x2029, 0x202F, 0x205F, 0x3000}
    || 0x2000 <= n <= 0x200A
  }

  /** No whitespace at either end: what `strip()` leaves behind. */
  predicate Trimmed(s: string) {
    s == [] || (!IsSpace(s[0]) && !IsSpace(s[|s| - 1]))
  }

  predicate AllSpace(s: string) {
    forall i :: 0 <= i < |s| ==> IsSpace(s[i])
  }

  /** `s.lstrip()` */
  function TrimStart(s: string): (r: string)
    ensures |r| <= |s|
    ensures r == [] || !IsSpace(r[0])
  {
    if |s| > 0 && IsSpace(s[0]) then TrimStart(s[1..]) else s
  }

  /** `s.rstrip()` */
  function TrimEnd(s: string): (r: string)
    ensures |r| <= |s|
    ensures r == [] || !IsSpace(r[|r| - 1])
  {
    if |s| > 0 && IsSpace(s[|s| - 1]) then TrimEnd(s[..|s| - 1]) else s
  }

  /** `lstrip()` cuts a whitespace prefix and nothing else. */
  lemma {:induction false} TrimStartIsSuffix(s: string)
    ensures TrimStart(s) == s[|s| - |TrimStart(s)|..]
    ensures AllSpace(s[..|s| - |TrimStart(s)|])
    decreases |s|
  {
    if |s| > 0 && IsSpace(s[0]) {
      var tail := s[1..];
      var r := TrimStart(tail);
      assert TrimStart(s) == r;
      TrimStartIsSuffix(tail);
      var k := |s| - |r|;
      assert tail[k - 1..] == s[k..];
      forall i | 0 <= i < k
        ensures IsSpace(s[..k][i])
      {
        if i > 0 {
          assert s[..k][i] == tail[..k - 1][i - 1];
        }
      }
    }
  }

  /** `rstrip()` cuts a whitespace suffix and nothing else. */
  lemma {:induction false} TrimEndIsPrefix(s: string)
    ensures TrimEnd(s) == s[..|TrimEnd(s)|]
    ensures AllSpace(s[|TrimEnd(s)|..])
    decreases |s|
  {
    if |s| > 0 && IsSpace(s[|s| - 1]) {
      var s' := s[..|s| - 1];
      TrimEndIsPrefix(s');
      assert s'[..|TrimEnd(s)|] == s[..|TrimEnd(s)|];
      assert s[|TrimEnd(s)|..] == s'[|TrimEnd(s)|..] + [s[|s| - 1]];
    }
  }

  /** `s.strip()`: whitespace removed from both ends. */
  function Strip(s: string): (r: string)
    ensures Trimmed(r) && |r| <= |s|
  {
    TrimEndIsPrefix(TrimStart(s));
    TrimEnd(TrimStart(s))
  }

  /** What `strip()` returns is a slice of its argument, and everything cut away
      on both sides is whitespace. */
  lemma StripIsSlice(s: string)
    ensures exists i :: 0 <= i <= |s| - |Strip(s)| && Strip(s) == s[i..i + |Strip(s)|]
                        && AllSpace(s[..i]) && AllSpace(s[i + |Strip(s)|..])
  {
    var t := TrimStart(s);
    var r := TrimEnd(t);
    var i := |s| - |t|;
    TrimStartIsSuffix(s);
    TrimEndIsPrefix(t);
    assert r == s[i..i + |r|];
    assert s[i + |r|..] == t[|r|..];
  }

  /** `strip()` never introduces a character. */
  lemma StripKeepsAbsent(s: string, c: char)
    requires c !in s
    ensures c !in Strip(s)
  {
    var t := TrimStart(s);
    TrimStartIsSuffix(s);
    TrimEndIsPrefix(t);
    assert c !in t;
  }

  lemma StripTrimmed(s: string)
    requires Trimmed(s)
    ensures Strip(s) == s
  {
  }

  lemma {:induction false} StripIdempotent(s: string)
    ensures Strip(Strip(s)) == Strip(s)
  {
    StripTrimmed(Strip(s));
  }

  lemma {:induction false} TrimStartAfterSpace(w: string, s: string)
    requires AllSpace(w)
    ensures TrimStart(w + s) == TrimStart(s)
    decreases |w|
  {
    if w == [] {
      assert w + s == s;
    } else {
      assert IsSpace(w[0]);
      assert (w + s)[0] == w[0];
      assert (w + s)[1..] == w[1..] + s;
      assert AllSpace(w[1..]);
      TrimStartAfterSpace(w[1..], s);
    }
  }

  /** Leading whitespace does not change what `strip()` returns. */
  lemma {:induction false} StripAfterSpace(w: string, s: string)
    requires AllSpace(w)
    ensures Strip(w + s) == Strip(s)
  {
    TrimStartAfterSpace(w, s);
  }

  /** A whitespace-only string strips to the empty string. */
  lemma {:induction false} StripAllSpace(w: string)
    requires AllSpace(w)
    ensures Strip(w) == []
  {
    assert w + [] == w;
    TrimStartAfterSpace(w, []);
    assert TrimStart(w) == [];
  }

  /** `s.replace(c, "")`: every occurrence of `c` deleted, the rest kept in order. */
  function Remove(s: string, c: char): (r: string)
    ensures c !in r
    ensures c !in s ==> r == s
    ensures |r| <= |s|
  {
    if s == [] then []
    else (if s[0] == c then [] else [s[0]]) + Remove(s[1..], c)
  }

  /** Deleting `c` keeps every other character as often as it occurred, so the
      result is exactly `|s|` less the occurrences of `c` long. */
  lemma {:induction false} RemoveCounts(s: string, c: char)
    ensures multiset(Remove(s, c)) == multiset(s)[c := 0]
    ensures |Remove(s, c)| == |s| - multiset(s)[c]
  {
    RemoveMultiset(s, c);
    RemoveLength(s, c);
  }

  lemma {:induction false} RemoveMultiset(s: string, c: char)
    ensures multiset(Remove(s, c)) == multiset(s)[c := 0]
    decreases |s|
  {
    if s != [] {
      var t := s[1..];
      RemoveMultiset(t, c);
      assert s == [s[0]] + t;
      assert multiset(s) == multiset([s[0]]) + multiset(t);
      assert multiset(Remove(s, c)) == multiset(if s[0] == c then [] else [s[0]]) + multiset(Remove(t, c));
    }
  }

  lemma {:induction false} RemoveLength(s: string, c: char)
    ensures |Remove(s, c)| == |s| - multiset(s)[c]
    decreases |s|
  {
    if s != [] {
      var t := s[1..];
      RemoveLength(t, c);
      assert s == [s[0]] + t;
      assert multiset(s)[c] == multiset([s[0]])[c] + multiset(t)[c];
    }
  }

  /** Deleting distributes over concatenation: what is kept stays in order. */
  lemma {:induction false} RemoveAppend(a: string, b: string, c: char)
    ensures Remove(a + b, c) == Remove(a, c) + Remove(b, c)
    decreases |a|
  {
    if a == [] {
      assert a + b == b;
    } else {
      assert (a + b)[0] == a[0];
      assert (a + b)[1..] == a[1..] + b;
      RemoveAppend(a[1..], b, c);
    }
  }

  /** Deleting one character never introduces another. */
  lemma {:induction false} RemoveKeepsAbsent(s: string, c: char, d: char)
    requires d !in s
    ensures d !in Remove(s, c)
    decreases |s|
  {
    if s != [] {
      assert s[0] != d;
      assert d !in s[1..];
      RemoveKeepsAbsent(s[1..], c, d);
    }
  }

  /** A piece without the separator splits into itself. */
  lemma SplitNoSep(p: string, sep: char)
    requires sep !in p
    ensures Split(p, sep) == [p]
  {
    SplitPrefix(p, [], sep);
    assert p + [] == p;
  }

  /** A leading separator opens an empty first piece. */
  lemma SplitAfterSep(s: string, sep: char)
    ensures Split([sep] + s, sep) == [[]] + Split(s, sep)
  {
    assert ([sep] + s)[1..] == s;
  }

  /** The inverse of `Split`: `sep.join(ps)`. */
  function Join(ps: seq<string>, sep: char): string
    requires |ps| >= 1
  {
    if |ps| == 1 then ps[0] else ps[0] + [sep] + Join(ps[1..], sep)
  }

  /** `s.split(sep)` with an explicit one-character separator: the maximal
      separator-free pieces, which joined back with `sep` give `s` again.
      An empty string splits into one empty piece. */
  function Split(s: string, sep: char): (r: seq<string>)
    ensures |r| >= 1
    ensures forall i :: 0 <= i < |r| ==> sep !in r[i]
    ensures Join(r, sep) == s
    decreases |s|
  {
    if s == [] then [[]]
    else
      var rest := Split(s[1..], sep);
      if s[0] == sep then
        [[]] + rest
      else
        var r := [[s[0]] + rest[0]] + rest[1..];
        assert r[1..] == rest[1..];
        r
  }

  /** Splitting after a separator-free prefix glues that prefix onto the first piece. */
  lemma {:induction false} SplitPrefix(p: string, s: string, sep: char)
    requires sep !in p
    ensures Split(p + s, sep) == [p + Split(s, sep)[0]] + Split(s, sep)[1..]
    decreases |p|
  {
    var S := Split(s, sep);
    if p == [] {
      assert p + s == s;
      assert p + S[0] == S[0];
      assert [S[0]] + S[1..] == S;
    } else {
      assert (p + s)[0] == p[0];
      assert (p + s)[1..] == p[1..] + s;
      SplitPrefix(p[1..], s, sep);
      var rest := Split(p[1..] + s, sep);
      assert rest == [p[1..] + S[0]] + S[1..];
      assert Split(p + s, sep) == [[p[0]] + rest[0]] + rest[1..];
      assert [p[0]] + (p[1..] + S[0]) == p + S[0];
    }
  }

  /** A separator-free piece and a separator in front of `s` add that piece in
      front of the pieces of `s`. */
  lemma SplitPieceThenSep(p: string, s: string, sep: char)
    requires sep !in p
    ensures Split(p + ([sep] + s), sep) == [p] + Split(s, sep)
  {
    SplitAfterSep(s, sep);
    SplitPrefix(p, [sep] + s, sep);
    assert p + [] == p;
  }

  /** Three separator-free pieces joined by two separators split back into them. */
  lemma SplitThree(p: string, q: string, r: string, sep: char)
    requires sep !in p && sep !in q && sep !in r
    ensures Split(p + ([sep] + (q + ([sep] + r))), sep) == [p, q, r]
  {
    SplitNoSep(r, sep);
    SplitPieceThenSep(q, r, sep);
    SplitPieceThenSep(p, q + ([sep] + r), sep);
  }

  /** Joining separator-free pieces and splitting again gives the pieces back. */
  lemma {:induction false} SplitJoin(ps: seq<string>, sep: char)
    requires |ps| >= 1
    requires forall i :: 0 <= i < |ps| ==> sep !in ps[i]
    ensures Split(Join(ps, sep), sep) == ps
    decreases |ps|
  {
    if |ps| == 1 {
      SplitNoSep(ps[0], sep);
    } else {
      var rest := ps[1..];
      assert forall i :: 0 <= i < |rest| ==> sep !in rest[i] by {
        forall i | 0 <= i < |rest| ensures sep !in rest[i] {
          assert rest[i] == ps[i + 1];
        }
      }
      SplitJoin(rest, sep);
      assert Join(ps, sep) == ps[0] + ([sep] + Join(rest, sep));
      SplitPieceThenSep(ps[0], Join(rest, sep), sep);
      assert [ps[0]] + rest == ps;
    }
  }

  /** A character that is neither the separator nor in any piece is not in the join. */
  lemma {:induction false} JoinKeepsAbsent(ps: seq<string>, sep: char, c: char)
    requires |ps| >= 1 && c != sep
    requires forall i :: 0 <= i < |ps| ==> c !in ps[i]
    ensures c !in Join(ps, sep)
    decreases |ps|
  {
    if |ps| > 1 {
      var rest := ps[1..];
      assert forall i :: 0 <= i < |rest| ==> c !in rest[i] by {
        forall i | 0 <= i < |rest| ensures c !in rest[i] {
          assert rest[i] == ps[i + 1];
        }
      }
      JoinKeepsAbsent(rest, sep, c);
      assert c !in ps[0];
    }
  }

  /** The number a string of decimal digits denotes, most significant first. */
  function DigitsValue(s: string): int {
    if s == [] then 0 else DigitsValue(s[..|s| - 1]) * 10 + ((s[|s| - 1] as int) - 48)
  }

  /** Reads a decimal text back: an optional minus sign, then digits. */
  function ParseDecimal(s: string): int {
    if s != [] && s[0] == '-' then -DigitsValue(s[1..]) else DigitsValue(s)
  }

  /** Decimal digits of a natural number, most significant first. */
  function Digits(n: nat): (r: string)
    ensures |r| >= 1
    ensures forall i :: 0 <= i < |r| ==> '0' <= r[i] <= '9'
    ensures DigitsValue(r) == n
    ensures n >= 10 ==> r[0] != '0'
  {
    if n < 10 then [(48 + n) as char]
    else
      var d := Digits(n / 10);
      var r := d + [(48 + n % 10) as char];
      assert r[..|r| - 1] == d;
      assert r[0] == d[0];
      r
  }

  /** `str(n)` for a Python int: a minus sign exactly for negative numbers, then
      the decimal digits without a leading zero; the text reads back as `n`. */
  function DecimalText(n: int): (r: string)
    ensures Trimmed(r) && r != []
    ensures r[0] == '-' <==> n < 0
    ensures ParseDecimal(r) == n
    ensures var start := if n < 0 then 1 else 0;
            && start < |r|
            && (forall i :: start <= i < |r| ==> '0' <= r[i] <= '9')
            && (|r| > start + 1 ==> r[start] != '0')
  {
    if n < 0 then
      var d := Digits(-n);
      assert ("-" + d)[1..] == d;
      "-" + d
    else Digits(n)
  }

  /** Distinct integers have distinct decimal texts, so comparing MRNs as text
      compares the numbers. */
  lemma DecimalTextInjective(a: int, b: int)
    ensures DecimalText(a) == DecimalText(b) <==> a == b
  {
  }
}
