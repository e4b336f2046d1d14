/**
 * The C library string routines the shells lean on, stated as functions:
 * `strtok` walked to the end of a line (Tokenize), `atoi` (Atoi) and the
 * decimal rendering a user types after `!` or `kill` (DecimalString).
 */
module Text {

  datatype Option<T> = None | Some(value: T)

  lemma Associate<T>(a: seq<T>, b: seq<T>, c: seq<T>)
    ensures (a + b) + c == a + (b + c)
  {
  }

  // ---------------------------------------------------------------------
  // strtok: splitting a line into tokens
  // ---------------------------------------------------------------------

  /** The tokens successive `strtok` calls return for `s`: maximal runs of
      characters outside `delims`, left to right, empty runs skipped. */
  function Tokenize(s: string, delims: set<char>): seq<string>
  {
    Scan(s, [], delims)
  }

  /** Tokenize with `cur` the part of the current token already read. */
  function Scan(s: string, cur: string, delims: set<char>): seq<string>
    decreases |s|
  {
    if s == [] then
      (if cur == [] then [] else [cur])
    else if s[0] in delims then
      (if cur == [] then [] else [cur]) + Scan(s[1..], [], delims)
    else
      Scan(s[1..], cur + [s[0]], delims)
  }

  /** A token as `strtok` can return it: non-empty, no delimiter inside. */
  predicate IsToken(t: string, delims: set<char>)
  {
    t != [] && forall c :: c in t ==> c !in delims
  }

  function Concat(ts: seq<string>): string
  {
    if ts == [] then [] else ts[0] + Concat(ts[1..])
  }

  /** `s` with every delimiter character deleted. */
  function WithoutDelims(s: string, delims: set<char>): string
  {
    if s == [] then []
    else (if s[0] in delims then [] else [s[0]]) + WithoutDelims(s[1..], delims)
  }

  /** The tokens written back into one line, separated by `sep`. */
  function Join(ts: seq<string>, sep: char): string
  {
    if ts == [] then []
    else if |ts| == 1 then ts[0]
    else ts[0] + [sep] + Join(ts[1..], sep)
  }

  lemma {:induction false} ScanTokensAreClean(s: string, cur: string, delims: set<char>)
    requires forall c :: c in cur ==> c !in delims
    ensures forall t :: t in Scan(s, cur, delims) ==> IsToken(t, delims)
    decreases |s|
  {
    if s == [] {
    } else if s[0] in delims {
      ScanTokensAreClean(s[1..], [], delims);
    } else {
      ScanTokensAreClean(s[1..], cur + [s[0]], delims);
    }
  }

  /** Every token is non-empty and holds no delimiter. */
  lemma TokensAreClean(s: string, delims: set<char>)
    ensures forall t :: t in Tokenize(s, delims) ==> IsToken(t, delims)
  {
    ScanTokensAreClean(s, [], delims);
  }

  lemma {:induction false} ConcatAppend(a: seq<string>, b: seq<string>)
    ensures Concat(a + b) == Concat(a) + Concat(b)
  {
    if a == [] {
      assert a + b == b;
    } else {
      assert (a + b)[0] == a[0];
      assert (a + b)[1..] == a[1..] + b;
      ConcatAppend(a[1..], b);
    }
  }

  lemma {:induction false} ScanKeepsText(s: string, cur: string, delims: set<char>)
    ensures Concat(Scan(s, cur, delims)) == cur + WithoutDelims(s, delims)
    decreases |s|
  {
    var pre := if cur == [] then [] else [cur];
    assert Concat(pre) == cur by {
      assert Concat([cur]) == cur + Concat([]);
    }
    if s == [] {
    } else if s[0] in delims {
      ScanKeepsText(s[1..], [], delims);
      ConcatAppend(pre, Scan(s[1..], [], delims));
      assert WithoutDelims(s, delims) == [] + WithoutDelims(s[1..], delims);
    } else {
      ScanKeepsText(s[1..], cur + [s[0]], delims);
      assert WithoutDelims(s, delims) == [s[0]] + WithoutDelims(s[1..], delims);
      assert (cur + [s[0]]) + WithoutDelims(s[1..], delims) == cur + ([s[0]] + WithoutDelims(s[1..], delims));
    }
  }

  /** The tokens, read left to right, spell the line minus its delimiters:
      no character is lost, duplicated or reordered. */
  lemma TokensKeepText(s: string, delims: set<char>)
    ensures Concat(Tokenize(s, delims)) == WithoutDelims(s, delims)
  {
    ScanKeepsText(s, [], delims);
  }

  lemma {:induction false} ScanWord(w: string, rest: string, cur: string, delims: set<char>)
    requires forall c :: c in w ==> c !in delims
    ensures Scan(w + rest, cur, delims) == Scan(rest, cur + w, delims)
    decreases |w|
  {
    if w == [] {
      assert w + rest == rest && cur + w == cur;
    } else {
      assert w[0] in w;
      assert (w + rest)[0] == w[0];
      assert (w + rest)[1..] == w[1..] + rest;
      ScanWord(w[1..], rest, cur + [w[0]], delims);
      assert cur + [w[0]] + w[1..] == cur + w;
    }
  }

  /** Tokenize undoes Join: clean tokens written out with a delimiter
      between them come back unchanged. */
  lemma {:induction false} TokenizeJoin(ts: seq<string>, sep: char, delims: set<char>)
    requires sep in delims
    requires forall t :: t in ts ==> IsToken(t, delims)
    ensures Tokenize(Join(ts, sep), delims) == ts
  {
    if ts == [] {
    } else if |ts| == 1 {
      assert ts[0] in ts;
      ScanWord(ts[0], [], [], delims);
      assert ts[0] + [] == ts[0] && [] + ts[0] == ts[0];
      assert ts == [ts[0]];
    } else {
      var rest := Join(ts[1..], sep);
      assert ts[0] in ts;
      assert Join(ts, sep) == ts[0] + ([sep] + rest);
      ScanWord(ts[0], [sep] + rest, [], delims);
      assert [] + ts[0] == ts[0];
      assert ([sep] + rest)[0] == sep && ([sep] + rest)[1..] == rest;
      assert Scan([sep] + rest, ts[0], delims) == [ts[0]] + Scan(rest, [], delims);
      TokenizeJoin(ts[1..], sep, delims);
      assert [ts[0]] + ts[1..] == ts;
    }
  }

  lemma {:induction false} ScanTrailingDelim(s: string, cur: string, d: char, delims: set<char>)
    requires d in delims
    ensures Scan(s + [d], cur, delims) == Scan(s, cur, delims)
    decreases |s|
  {
    if s == [] {
      assert Scan([d], cur, delims) == (if cur == [] then [] else [cur]) + Scan([], [], delims);
    } else {
      assert (s + [d])[0] == s[0] && (s + [d])[1..] == s[1..] + [d];
      if s[0] in delims {
        ScanTrailingDelim(s[1..], [], d, delims);
      } else {
        ScanTrailingDelim(s[1..], cur + [s[0]], d, delims);
      }
    }
  }

  /** A trailing delimiter adds no token. */
  lemma TrailingDelim(s: string, d: char, delims: set<char>)
    requires d in delims
    ensures Tokenize(s + [d], delims) == Tokenize(s, delims)
  {
    ScanTrailingDelim(s, [], d, delims);
  }

  /** The C string left in a buffer after one `strtok` call on it: the
      leading delimiters and the first token, since `strtok` writes its
      terminator just after that token. `inToken` says whether the first
      token has begun. */
  function FirstCut(s: string, delims: set<char>, inToken: bool): (r: string)
    ensures |r| <= |s| && r == s[..|r|]
  {
    if s == [] then []
    else if s[0] in delims then
      (if inToken then [] else [s[0]] + FirstCut(s[1..], delims, false))
    else [s[0]] + FirstCut(s[1..], delims, true)
  }

  lemma {:induction false} FirstCutInToken(s: string, cur: string, delims: set<char>)
    requires cur != []
    ensures Scan(s, cur, delims) != []
    ensures Scan(FirstCut(s, delims, true), cur, delims) == [Scan(s, cur, delims)[0]]
    decreases |s|
  {
    if s == [] {
    } else if s[0] in delims {
      assert Scan(s, cur, delims) == [cur] + Scan(s[1..], [], delims);
    } else {
      var t := FirstCut(s[1..], delims, true);
      assert ([s[0]] + t)[0] == s[0] && ([s[0]] + t)[1..] == t;
      FirstCutInToken(s[1..], cur + [s[0]], delims);
    }
  }

  /** What is left of a line after the first `strtok` call splits to the
      same first token and nothing more. */
  lemma {:induction false} FirstCutTokens(s: string, delims: set<char>)
    ensures Tokenize(FirstCut(s, delims, false), delims) ==
              if Tokenize(s, delims) == [] then [] else [Tokenize(s, delims)[0]]
    decreases |s|
  {
    if s == [] {
    } else if s[0] in delims {
      var t := FirstCut(s[1..], delims, false);
      assert ([s[0]] + t)[0] == s[0] && ([s[0]] + t)[1..] == t;
      assert Scan(s, [], delims) == [] + Scan(s[1..], [], delims);
      FirstCutTokens(s[1..], delims);
    } else {
      var t := FirstCut(s[1..], delims, true);
      assert ([s[0]] + t)[0] == s[0] && ([s[0]] + t)[1..] == t;
      FirstCutInToken(s[1..], [s[0]], delims);
      assert [] + [s[0]] == [s[0]];
    }
  }

  // ---------------------------------------------------------------------
  // atoi
  // ---------------------------------------------------------------------

  predicate IsDigit(c: char)
  {
    '0' <= c <= '9'
  }

  /** The characters C's isspace accepts. */
  predicate IsSpace(c: char)
  {
    c == ' ' || c == '\t' || c == '\n' || c == '\U{000B}' || c == '\U{000C}' || c == '\r'
  }

  function SkipSpaces(s: string): (r: string)
    ensures |r| <= |s|
  {
    if s != [] && IsSpace(s[0]) then SkipSpaces(s[1..]) else s
  }

  /** The longest prefix of `s` made of decimal digits. */
  function LeadingDigits(s: string): (r: string)
    ensures |r| <= |s|
  {
    if s != [] && IsDigit(s[0]) then [s[0]] + LeadingDigits(s[1..]) else []
  }

  predicate AllDigits(s: string)
  {
    forall c :: c in s ==> IsDigit(c)
  }

  function DigitValue(c: char): nat
    requires IsDigit(c)
  {
    (c as int) - ('0' as int)
  }

  function DecimalValue(ds: string): nat
    requires AllDigits(ds)
  {
    if ds == [] then 0
    else
      assert ds[|ds| - 1] in ds;
      DecimalValue(ds[..|ds| - 1]) * 10 + DigitValue(ds[|ds| - 1])
  }

  lemma {:induction false} LeadingDigitsAreDigits(s: string)
    ensures AllDigits(LeadingDigits(s))
  {
    if s != [] && IsDigit(s[0]) {
      LeadingDigitsAreDigits(s[1..]);
    }
  }

  /** C's atoi: skip white space, take an optional sign, then the longest
      run of decimal digits; 0 when there is none. Overflow is not modelled. */
  function Atoi(s: string): int
  {
    var t := SkipSpaces(s);
    LeadingDigitsAreDigits(if t != [] && (t[0] == '-' || t[0] == '+') then t[1..] else t);
    if t != [] && t[0] == '-' then -(DecimalValue(LeadingDigits(t[1..])) as int)
    else if t != [] && t[0] == '+' then DecimalValue(LeadingDigits(t[1..]))
    else DecimalValue(LeadingDigits(t))
  }

  /** How `n` is written in decimal, without sign or leading zeros. */
  function DecimalString(n: nat): (r: string)
    ensures r != [] && AllDigits(r)
  {
    var last := ((n % 10) + ('0' as int)) as char;
    if n < 10 then [last] else DecimalString(n / 10) + [last]
  }

  lemma {:induction false} DecimalValueOfString(n: nat)
    ensures DecimalValue(DecimalString(n)) == n
  {
    if n >= 10 {
      var ds := DecimalString(n);
      assert ds[..|ds| - 1] == DecimalString(n / 10);
      DecimalValueOfString(n / 10);
    }
  }

  lemma {:induction false} LeadingDigitsOfDigits(ds: string, rest: string)
    requires AllDigits(ds)
    requires rest == [] || !IsDigit(rest[0])
    ensures LeadingDigits(ds + rest) == ds
  {
    if ds != [] {
      assert (ds + rest)[0] == ds[0];
      assert (ds + rest)[1..] == ds[1..] + rest;
      LeadingDigitsOfDigits(ds[1..], rest);
    } else {
      assert ds + rest == rest;
    }
  }

  /** atoi reads back a number written in decimal, whatever non-digit text
      follows it. */
  lemma AtoiDecimal(n: nat, rest: string)
    requires rest == [] || !IsDigit(rest[0])
    ensures Atoi(DecimalString(n) + rest) == n
  {
    var s := DecimalString(n) + rest;
    assert DecimalString(n)[0] in DecimalString(n);
    assert s[0] == DecimalString(n)[0];
    assert SkipSpaces(s) == s;
    LeadingDigitsOfDigits(DecimalString(n), rest);
    DecimalValueOfString(n);
  }

  // ---------------------------------------------------------------------
  // Subsequences
  // ---------------------------------------------------------------------

  /** `a` can be obtained from `b` by deleting elements. */
  predicate IsSubseq<T(==)>(a: seq<T>, b: seq<T>)
    decreases |b|
  {
    if a == [] then true
    else if b == [] then false
    else (a[0] == b[0] && IsSubseq(a[1..], b[1..])) || IsSubseq(a, b[1..])
  }

  lemma {:induction false} SubseqExtend<T>(a: seq<T>, b: seq<T>, c: seq<T>)
    requires IsSubseq(a, b)
    ensures IsSubseq(a, b + c)
    decreases |b|
  {
    if a != [] {
      assert (b + c)[1..] == b[1..] + c;
      if a[0] == b[0] && IsSubseq(a[1..], b[1..]) {
        SubseqExtend(a[1..], b[1..], c);
      } else {
        SubseqExtend(a, b[1..], c);
      }
    }
  }

  lemma {:induction false} SubseqSkip<T>(a: seq<T>, p: seq<T>, b: seq<T>)
    requires IsSubseq(a, b)
    ensures IsSubseq(a, p + b)
    decreases |p|
  {
    if p != [] && a != [] {
      assert (p + b)[1..] == p[1..] + b;
      SubseqSkip(a, p[1..], b);
    } else if p == [] {
      assert p + b == b;
    }
  }

  /** Appending the same element to both keeps a subsequence. */
  lemma {:induction false} SubseqAppend<T>(a: seq<T>, b: seq<T>, x: T)
    requires IsSubseq(a, b)
    ensures IsSubseq(a + [x], b + [x])
    decreases |b|
  {
    if a == [] {
      assert IsSubseq([x], [x]) by {
        assert [x][1..] == [];
      }
      SubseqSkip([x], b, [x]);
      assert a + [x] == [x];
    } else {
      assert (a + [x])[0] == a[0] && (a + [x])[1..] == a[1..] + [x];
      assert (b + [x])[0] == b[0] && (b + [x])[1..] == b[1..] + [x];
      if a[0] == b[0] && IsSubseq(a[1..], b[1..]) {
        SubseqAppend(a[1..], b[1..], x);
      } else {
        SubseqAppend(a, b[1..], x);
      }
    }
  }

  lemma {:induction false} SubseqMembers<T>(a: seq<T>, b: seq<T>)
    requires IsSubseq(a, b)
    ensures forall x :: x in a ==> x in b
    decreases |b|
  {
    if a != [] {
      if a[0] == b[0] && IsSubseq(a[1..], b[1..]) {
        SubseqMembers(a[1..], b[1..]);
        assert forall x :: x in a ==> x == a[0] || x in a[1..];
      } else {
        SubseqMembers(a, b[1..]);
      }
    }
  }
}
