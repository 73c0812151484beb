/** The string operations `count_words` relies on, restricted to ASCII:
    `str.lower()`, `str.split()` with no argument, `list.count`, Python's
    ordering of `str` values and the decimal rendering of an `int` in an
    f-string. */
module Text {
  import opened Seqs

  predicate IsUpper(c: char)
  {
    'A' <= c <= 'Z'
  }

  function LowerChar(c: char): char
  {
    if IsUpper(c) then (c as int + 32) as char else c
  }

  /** `str.lower()` on ASCII letters; every other character is kept. */
  function Lower(s: string): (r: string)
    ensures |r| == |s|
    ensures forall i :: 0 <= i < |s| ==> r[i] == LowerChar(s[i])
    decreases |s|
  {
    if s == [] then [] else [LowerChar(s[0])] + Lower(s[1..])
  }

  /** Lowering twice is lowering once, and a lowered string has no upper-case letter. */
  lemma LowerIdempotent(s: string)
    ensures Lower(Lower(s)) == Lower(s)
    ensures forall i :: 0 <= i < |s| ==> !IsUpper(Lower(s)[i])
  {
    assert forall i :: 0 <= i < |s| ==> LowerChar(LowerChar(s[i])) == LowerChar(s[i]);
  }

  /** The ASCII characters Python's `str.isspace` accepts: tab, line feed,
      vertical tab, form feed, carriage return, the four information
      separators 0x1C-0x1F, and space. */
  predicate IsSpace(c: char)
  {
    c == ' ' || 9 <= c as int <= 13 || 28 <= c as int <= 31
  }

  predicate NoSpace(s: string)
  {
    forall i :: 0 <= i < |s| ==> !IsSpace(s[i])
  }

  /** The length of the run of non-space characters at the start of `s`. */
  function WordLen(s: string): (n: nat)
    ensures n <= |s|
    ensures NoSpace(s[..n])
    ensures n == |s| || IsSpace(s[n])
    decreases |s|
  {
    if s == [] || IsSpace(s[0]) then 0 else 1 + WordLen(s[1..])
  }

  /** `str.split()`: the maximal runs of non-space characters, in order;
      leading, trailing and repeated whitespace give no empty tokens. */
  function Split(s: string): (ws: seq<string>)
    ensures forall i :: 0 <= i < |ws| ==> ws[i] != [] && NoSpace(ws[i])
    decreases |s|
  {
    if s == [] then []
    else if IsSpace(s[0]) then Split(s[1..])
    else
      var n := WordLen(s);
      [s[..n]] + Split(s[n..])
  }

  /** Everything but the whitespace, in order. */
  function Strip(s: string): string
    decreases |s|
  {
    if s == [] then [] else (if IsSpace(s[0]) then [] else [s[0]]) + Strip(s[1..])
  }

  function Concat(ws: seq<string>): string
  {
    if ws == [] then [] else ws[0] + Concat(ws[1..])
  }

  lemma StripOfWord(w: string)
    requires NoSpace(w)
    ensures Strip(w) == w
  {
    if w != [] {
      StripOfWord(w[1..]);
    }
  }

  lemma {:induction false} StripAppend(a: string, b: string)
    ensures Strip(a + b) == Strip(a) + Strip(b)
    decreases |a|
  {
    if a != [] {
      var h: string := if IsSpace(a[0]) then [] else [a[0]];
      assert (a + b)[0] == a[0] && (a + b)[1..] == a[1..] + b;
      StripAppend(a[1..], b);
      assert Strip(a + b) == h + (Strip(a[1..]) + Strip(b));
      assert h + (Strip(a[1..]) + Strip(b)) == (h + Strip(a[1..])) + Strip(b);
      assert Strip(a) == h + Strip(a[1..]);
    } else {
      assert a + b == b;
    }
  }

  /** The tokens of `s` are exactly its non-whitespace characters, in order. */
  lemma {:induction false} SplitKeepsText(s: string)
    ensures Concat(Split(s)) == Strip(s)
    decreases |s|
  {
    if s != [] {
      if IsSpace(s[0]) {
        SplitKeepsText(s[1..]);
      } else {
        var n := WordLen(s);
        assert s == s[..n] + s[n..];
        SplitKeepsText(s[n..]);
        StripAppend(s[..n], s[n..]);
        StripOfWord(s[..n]);
      }
    }
  }

  /** A non-empty word without whitespace is one token. */
  lemma {:induction false} SplitWord(w: string)
    requires w != [] && NoSpace(w)
    ensures Split(w) == [w]
  {
    WordLenOfWord(w);
    assert w[..|w|] == w;
  }

  lemma {:induction false} WordLenOfWord(w: string)
    requires NoSpace(w)
    ensures WordLen(w) == |w|
    decreases |w|
  {
    if w != [] {
      WordLenOfWord(w[1..]);
    }
  }

  lemma {:induction false} WordLenAppend(a: string, b: string)
    requires a != [] && !IsSpace(a[0])
    requires WordLen(a) < |a|
    ensures WordLen(a + b) == WordLen(a)
    decreases |a|
  {
    assert (a + b)[1..] == a[1..] + b;
    if !IsSpace(a[1]) {
      WordLenAppend(a[1..], b);
    }
  }

  lemma {:induction false} WordLenBeforeSpace(a: string, c: char, b: string)
    requires NoSpace(a) && IsSpace(c)
    ensures WordLen(a + [c] + b) == |a|
    decreases |a|
  {
    if a != [] {
      assert (a + [c] + b)[1..] == a[1..] + [c] + b;
      WordLenBeforeSpace(a[1..], c, b);
    }
  }

  /** `Split` on a string that starts with a word. */
  lemma SplitAtWord(s: string)
    requires s != [] && !IsSpace(s[0])
    ensures Split(s) == [s[..WordLen(s)]] + Split(s[WordLen(s)..])
  {
  }

  /** `Split` on a space followed by `b`. */
  lemma SplitAfterSpace(c: char, b: string)
    requires IsSpace(c)
    ensures Split([c] + b) == Split(b)
  {
    assert ([c] + b)[1..] == b;
  }

  /** The case of `SplitAtSpace` where `a` is one whole word. */
  lemma SplitAtSpaceWord(a: string, c: char, b: string)
    requires a != [] && NoSpace(a) && IsSpace(c)
    ensures Split(a + [c] + b) == Split(a) + Split(b)
  {
    var s := a + [c] + b;
    WordLenBeforeSpace(a, c, b);
    assert s[..|a|] == a && s[|a|..] == [c] + b;
    SplitAtWord(s);
    SplitAfterSpace(c, b);
    SplitWord(a);
  }

  /** Splitting at a whitespace character splits the token list there: the
      tokens of `a + [c] + b` are the tokens of `a` followed by those of `b`. */
  lemma {:induction false} SplitAtSpace(a: string, c: char, b: string)
    requires IsSpace(c)
    ensures Split(a + [c] + b) == Split(a) + Split(b)
    decreases |a|
  {
    var s := a + [c] + b;
    if a == [] {
      assert s == [c] + b;
      SplitAfterSpace(c, b);
    } else if IsSpace(a[0]) {
      assert s[1..] == a[1..] + [c] + b;
      SplitAtSpace(a[1..], c, b);
    } else if WordLen(a) == |a| {
      assert a[..|a|] == a;
      SplitAtSpaceWord(a, c, b);
    } else {
      SplitAtSpace(a[WordLen(a)..], c, b);
      SplitAtSpaceLonger(a, c, b);
    }
  }

  /** The case of `SplitAtSpace` where `a` starts with a word followed by
      more text, given the property for that rest. */
  lemma SplitAtSpaceLonger(a: string, c: char, b: string)
    requires a != [] && !IsSpace(a[0]) && WordLen(a) < |a| && IsSpace(c)
    requires Split(a[WordLen(a)..] + [c] + b) == Split(a[WordLen(a)..]) + Split(b)
    ensures Split(a + [c] + b) == Split(a) + Split(b)
  {
    var s, n := a + [c] + b, WordLen(a);
    WordLenAppend(a, [c] + b);
    assert s == a + ([c] + b);
    SliceAppend(a, [c] + b, n);
    assert a[n..] + ([c] + b) == a[n..] + [c] + b;
    SplitAtWord(s);
    SplitAtWord(a);
    AppendAssoc([a[..n]], Split(a[n..]), Split(b));
  }

  /** `list.count(w)`: how many elements of `ts` equal `w`. */
  function Occurrences(ts: seq<string>, w: string): (n: nat)
    ensures n == multiset(ts)[w]
    ensures n <= |ts|
  {
    if ts == [] then 0
    else
      assert ts == [ts[0]] + ts[1..];
      (if ts[0] == w then 1 else 0) + Occurrences(ts[1..], w)
  }

  /** Counting over a concatenation adds the counts of the parts. */
  lemma OccurrencesAppend(a: seq<string>, b: seq<string>, w: string)
    ensures Occurrences(a + b, w) == Occurrences(a, w) + Occurrences(b, w)
  {
    assert multiset(a + b) == multiset(a) + multiset(b);
  }

  /** Python's `<` on `str`: lexicographic by code point, a proper prefix first. */
  predicate StrLess(a: string, b: string)
    decreases |a|
  {
    if a == [] then b != []
    else if b == [] then false
    else if a[0] != b[0] then a[0] < b[0]
    else StrLess(a[1..], b[1..])
  }

  lemma {:induction false} StrLessIrreflexive(a: string)
    ensures !StrLess(a, a)
    decreases |a|
  {
    if a != [] {
      StrLessIrreflexive(a[1..]);
    }
  }

  lemma {:induction false} StrLessTransitive(a: string, b: string, c: string)
    requires StrLess(a, b) && StrLess(b, c)
    ensures StrLess(a, c)
    decreases |a|
  {
    if a != [] && a[0] == b[0] && b[0] == c[0] {
      StrLessTransitive(a[1..], b[1..], c[1..]);
    }
  }

  /** Any two different strings are ordered one way or the other, never both. */
  lemma {:induction false} StrLessTotal(a: string, b: string)
    ensures a == b || StrLess(a, b) || StrLess(b, a)
    ensures !(StrLess(a, b) && StrLess(b, a))
    decreases |a|
  {
    if a != [] && b != [] && a[0] == b[0] {
      StrLessTotal(a[1..], b[1..]);
      if a[1..] == b[1..] {
        assert a == [a[0]] + a[1..] && b == [b[0]] + b[1..];
      }
    }
  }

  predicate IsDigit(c: char)
  {
    '0' <= c <= '9'
  }

  function DigitChar(d: nat): (c: char)
    requires d < 10
    ensures IsDigit(c)
  {
    ('0' as int + d) as char
  }

  function DigitValue(c: char): (d: nat)
    requires IsDigit(c)
    ensures d < 10
  {
    c as int - '0' as int
  }

  /** `str(n)` for a natural number: its decimal digits, no leading zero. */
  function NatToString(n: nat): (s: string)
    ensures s != []
    ensures forall i :: 0 <= i < |s| ==> IsDigit(s[i])
    ensures |s| > 1 ==> s[0] != '0'
    decreases n
  {
    if n < 10 then [DigitChar(n)] else NatToString(n / 10) + [DigitChar(n % 10)]
  }

  /** The value of a string of decimal digits. */
  function ParseNat(s: string): nat
    requires forall i :: 0 <= i < |s| ==> IsDigit(s[i])
    decreases |s|
  {
    if s == [] then 0 else 10 * ParseNat(s[..|s| - 1]) + DigitValue(s[|s| - 1])
  }

  /** Reading the rendered digits back gives the number. */
  lemma {:induction false} NatToStringRoundTrip(n: nat)
    ensures ParseNat(NatToString(n)) == n
    decreases n
  {
    var s := NatToString(n);
    if n < 10 {
      assert s[..|s| - 1] == [];
    } else {
      NatToStringRoundTrip(n / 10);
      assert s[..|s| - 1] == NatToString(n / 10);
    }
  }
}
